/** The multi-part message bodies of icmp/multipart.go and icmp/extension.go, after sections 7 and 8 of RFC 4884. */
module IcmpMultipart {
  import opened Utf8
  import opened IcmpChecksum
  import opened IcmpObjects
  import opened IcmpOverwrite
  import opened IcmpMarshal

  // ----- lengths -----

  function Align(proto: Proto): (a: nat)
    ensures a == 4 || a == 8
  {
    if proto.ICMPv4? then 4 else 8
  }

  /** multipartMessageOrigDatagramLen; a length that is aligned already is rounded up all the same. */
  function PaddedLen(proto: Proto, n: nat): (l: nat)
    ensures n <= l && 128 <= l && l % Align(proto) == 0
  {
    if n < 128 then 128 else (n + Align(proto)) / Align(proto) * Align(proto)
  }

  function ObjectsLen(proto: Proto, exts: seq<Extension>): (l: nat)
    ensures exts != [] ==> l >= 4
  {
    if exts == [] then 0 else Len(proto, exts[0]) + ObjectsLen(proto, exts[1..])
  }

  /** multipartMessageBodyDataLen: the lengths of the body and of the padded data in it. */
  method BodyDataLen(proto: Proto, data: Bytes, exts: seq<Extension>) returns (bodyLen: nat, dataLen: nat)
    ensures dataLen == if exts == [] then |data| else PaddedLen(proto, |data|)
    ensures bodyLen == dataLen + if exts == [] then 0 else 4 + ObjectsLen(proto, exts)
  {
    bodyLen := 0;
    var n := 0;
    while n < |exts|
      invariant 0 <= n <= |exts| && bodyLen + ObjectsLen(proto, exts[n..]) == ObjectsLen(proto, exts)
    {
      assert exts[n..][1..] == exts[n + 1..];
      bodyLen := bodyLen + Len(proto, exts[n]);
      n := n + 1;
    }
    if bodyLen > 0 {
      dataLen := PaddedLen(proto, |data|);
      bodyLen := bodyLen + 4;
    } else {
      dataLen := |data|;
    }
    bodyLen := bodyLen + dataLen;
  }

  // ----- marshaling -----

  /** What the loop over the objects makes of b. */
  function ObjectsOver(proto: Proto, exts: seq<Extension>, b: Bytes): (r: Bytes)
    requires ObjectsLen(proto, exts) <= |b|
    ensures |r| == |b|
  {
    if exts == [] then b
    else
      var l, u := Len(proto, exts[0]), ObjectOver(proto, exts[0], b);
      u[..l] + ObjectsOver(proto, exts[1..], u[l..])
  }

  /** The bytes of the objects; they are written over zeros. */
  function ObjectsWire(proto: Proto, exts: seq<Extension>): (b: Bytes)
    ensures |b| == ObjectsLen(proto, exts)
  {
    ObjectsOver(proto, exts, Zeros(ObjectsLen(proto, exts)))
  }

  const HEADER: Bytes := [0x20, 0, 0, 0]

  /** The extension structure: a header with the checksum, and the objects. */
  function Structure(proto: Proto, exts: seq<Extension>): (b: Bytes)
    ensures |b| == 4 + ObjectsLen(proto, exts)
  {
    var raw := HEADER + ObjectsWire(proto, exts);
    Patched(raw, 2, ChecksumOf(raw))
  }

  /** The first four bytes of the body, with the length of the data in words. */
  function Head(proto: Proto, dataLen: nat): (b: Bytes)
    ensures |b| == 4
  {
    if proto.ICMPv4? then [0, Low(dataLen / 4), 0, 0] else [Low(dataLen / 8), 0, 0, 0]
  }

  function Body(proto: Proto, data: Bytes, exts: seq<Extension>): Bytes
  {
    if exts == [] then Zeros(4) + data
    else
      var l := PaddedLen(proto, |data|);
      Head(proto, l) + (data + Zeros(l - |data|)) + Structure(proto, exts)
  }

  // ----- parsing -----

  /** validExtensionHeader: version 2, and a checksum of zero that is not checked or one that is right. */
  predicate ValidHeader(b: Bytes)
    requires |b| >= 4
  {
    b[0] / 16 == 2 && (Int16(b[2..]) == 0 || ChecksumOf(b) == 0)
  }

  /** The loop of parseExtensions. */
  function ObjectsAt(b: Bytes): Result<seq<Extension>> {
    if |b| < 4 then Ok([])
    else
      var ol := Int16(b);
      if ol < 4 || ol > |b| then Ok([])
      else
        match ObjectAt(b[..ol])
        case Err(e) => Err(e)
        case Ok(x) =>
          match ObjectsAt(b[ol..])
          case Err(e) => Err(e)
          case Ok(rest) => Ok(if b[2] == CLASS_MPLS || b[2] == CLASS_INFO then [x] + rest else rest)
  }

  datatype Extensions = Extensions(exts: seq<Extension>, l: nat)

  /** parseExtensions: the length attribute is corrected to 128 where it cannot be right. */
  function ExtensionsAt(b: Bytes, attribute: nat): (r: Result<Extensions>)
    ensures r.Ok? ==> r.value.l + 8 <= |b|
  {
    var l := if 128 > attribute || attribute + 8 > |b| then 128 else attribute;
    if l + 8 > |b| then Err(NoExtension)
    else
      var m := if ValidHeader(b[l..]) then l else 128;
      if !ValidHeader(b[m..]) then Err(NoExtension)
      else
        match ObjectsAt(b[m + 4..])
        case Err(e) => Err(e)
        case Ok(exts) => Ok(Extensions(exts, m))
  }

  function LengthAttribute(proto: Proto, b: Bytes): nat
    requires |b| >= 4
  {
    if proto.ICMPv4? then 4 * (b[1] as int) else 8 * (b[0] as int)
  }

  /** parseMultipartMessageBody: the data and the extensions. */
  function BodyAt(proto: Proto, b: Bytes): (Bytes, seq<Extension>)
    requires |b| >= 4
  {
    if |b| == 4 then ([], [])
    else
      match ExtensionsAt(b[4..], LengthAttribute(proto, b))
      case Err(_) => (b[4..], [])
      case Ok(x) => (b[4..4 + x.l], x.exts)
  }

  // ----- marshaling, in place -----

  lemma ObjectsStep(proto: Proto, exts: seq<Extension>, n: nat, b: Bytes)
    requires n < |exts| && ObjectsLen(proto, exts[n..]) <= |b|
    ensures ObjectsLen(proto, exts[n..]) == Len(proto, exts[n]) + ObjectsLen(proto, exts[n + 1..])
    ensures var l, u := Len(proto, exts[n]), ObjectOver(proto, exts[n], b);
      ObjectsOver(proto, exts[n..], b) == u[..l] + ObjectsOver(proto, exts[n + 1..], u[l..])
  {
    hide Len, ObjectOver;
    assert exts[n..][1..] == exts[n + 1..] && exts[n..][0] == exts[n];
  }

  lemma StackWritten(proto: Proto, x: Extension, b0: Bytes, b1: Bytes, off: nat)
    requires x.MPLS? && Written(b0, b1, off, Wire(proto, x))
    ensures off + Len(proto, x) <= |b0| && b1 == b0[..off] + ObjectOver(proto, x, b0[off..])
  {
    hide Wire, Len;
    assert b0[off..][Len(proto, x)..] == b0[off + Len(proto, x)..];
  }

  method MarshalObject(proto: Proto, x: Extension, b: array<Byte>, off: nat)
    requires off + Len(proto, x) <= b.Length
    modifies b
    ensures b[..] == old(b[..off]) + ObjectOver(proto, x, old(b[off..]))
  {
    hide Wire, Len, ObjectOver, Written;
    ghost var b0 := b[..];
    if x.MPLS? {
      MarshalMPLS(proto, x, b, off);
      StackWritten(proto, x, b0, b[..], off);
    } else {
      MarshalInfo(proto, x, b, off);
    }
  }

  /** One round of the loop over the objects: what is left to be done completes what there was to be done. */
  method MarshalNext(proto: Proto, exts: seq<Extension>, n: nat, b: array<Byte>, off: nat)
    requires n < |exts| && off + ObjectsLen(proto, exts[n..]) <= b.Length
    modifies b
    ensures Len(proto, exts[n]) + ObjectsLen(proto, exts[n + 1..]) == ObjectsLen(proto, exts[n..])
    ensures var next := off + Len(proto, exts[n]);
      b[..next] + ObjectsOver(proto, exts[n + 1..], b[next..])
      == old(b[..off]) + ObjectsOver(proto, exts[n..], old(b[off..]))
  {
    hide Len, ObjectOver, ObjectsOver, ObjectsLen;
    ObjectsStep(proto, exts, n, b[off..]);
    ghost var b0, u := b[..], ObjectOver(proto, exts[n], b[off..]);
    MarshalObject(proto, exts[n], b, off);
    PartSplits(b0, b[..], off, Len(proto, exts[n]), u);
  }

  /** The loop of marshalMultipartMessageBody over the objects. */
  method MarshalObjects(proto: Proto, exts: seq<Extension>, b: array<Byte>, at: nat)
    requires at + ObjectsLen(proto, exts) <= b.Length
    modifies b
    ensures b[..] == old(b[..at]) + ObjectsOver(proto, exts, old(b[at..]))
  {
    hide Len, ObjectOver, ObjectsOver, ObjectsLen;
    ghost var l, want := ObjectsLen(proto, exts), b[..at] + ObjectsOver(proto, exts, b[at..]);
    var off: nat := at;
    var n := 0;
    assert exts[0..] == exts;
    while n < |exts|
      invariant 0 <= n <= |exts| && off + ObjectsLen(proto, exts[n..]) == at + l
      invariant b[..off] + ObjectsOver(proto, exts[n..], b[off..]) == want
    {
      var ext := exts[n];
      MarshalNext(proto, exts, n, b, off);
      off := off + Len(proto, ext);
      n := n + 1;
    }
    assert exts[n..] == [];
    NoObjects(proto, b[off..]);
    assert b[..off] + b[off..] == b[..];
  }

  lemma NoObjects(proto: Proto, b: Bytes)
    ensures ObjectsLen(proto, []) == 0 && ObjectsOver(proto, [], b) == b
  {
  }

  /** The extension structure at the end of a buffer that is zero there. */
  method MarshalStructure(proto: Proto, exts: seq<Extension>, b: array<Byte>, at: nat)
    requires at + 4 + ObjectsLen(proto, exts) == b.Length
    modifies b
    ensures Blank(old(b[at..]), b.Length - at) ==> b[..] == old(b[..at]) + Structure(proto, exts)
  {
    hide ObjectsLen, ObjectsOver, ChecksumOf, XorByte;
    ghost var b0, l := b[..], ObjectsLen(proto, exts);
    b[at] := 0x20;
    ghost var b1 := b[..];
    MarshalObjects(proto, exts, b, at + 4);
    ghost var b2 := b[..];
    var s := Checksum(b[at..]);
    b[at + 2] := XorByte(b[at + 2], Low(s));
    b[at + 3] := XorByte(b[at + 3], Low(s / 256));
    if Blank(b0[at..], 4 + l) {
      HeaderWritten(b0, b1, at, l);
      HeaderKept(b0, b1, b2, at, ObjectsWire(proto, exts));
      PatchAtEnd(b2, b[..], at, s);
    }
  }

  lemma HeaderWritten(b0: Bytes, b1: Bytes, at: nat, l: nat)
    requires at + 4 + l == |b0| && Blank(b0[at..], 4 + l) && b1 == b0[at := 0x20]
    ensures b1[..at + 4] == b0[..at] + HEADER && b1[at + 4..] == Zeros(l)
  {
    assert forall k :: at <= k < |b0| ==> b0[k] == b0[at..][k - at];
  }

  lemma HeaderKept(b0: Bytes, b1: Bytes, b2: Bytes, at: nat, w: Bytes)
    requires at + 4 <= |b0| == |b1| && b1[..at + 4] == b0[..at] + HEADER && b2 == b1[..at + 4] + w
    ensures b2[..at] == b0[..at] && b2[at..] == HEADER + w
  {
  }

  lemma PatchAtEnd(b2: Bytes, b3: Bytes, at: nat, s: nat)
    requires at + 4 <= |b2| && s < 0x1_0000
    requires b3 == b2[at + 2 := XorByte(b2[at + 2], Low(s))][at + 3 := XorByte(b2[at + 3], Low(s / 256))]
    ensures b3 == b2[..at] + Patched(b2[at..], 2, s)
  {
    hide XorByte;
  }

  /** marshalMultipartMessageBody. */
  method MarshalMultipartMessageBody(proto: Proto, data: Bytes, exts: seq<Extension>) returns (b: array<Byte>)
    ensures fresh(b)
    ensures b[..] == Body(proto, data, exts)
  {
    hide ObjectsLen, PaddedLen, Structure, Head, Written;
    var bodyLen, dataLen := BodyDataLen(proto, data, exts);
    b := new Byte[4 + bodyLen](_ => 0);
    ghost var b0 := b[..];
    Copy(b, 4, data);
    ghost var b1 := b[..];
    if |exts| > 0 {
      MarshalStructure(proto, exts, b, dataLen + 4);
      ghost var b2 := b[..];
      if proto.ICMPv4? {
        b[1] := Low(dataLen / 4);
      } else {
        b[0] := Low(dataLen / 8);
      }
      DataWritten(b0, b1, dataLen, data);
      HeadWritten(proto, b2, b[..], dataLen, data + Zeros(dataLen - |data|), Structure(proto, exts));
    } else {
      DataWritten(b0, b1, dataLen, data);
    }
  }

  lemma DataWritten(b0: Bytes, b1: Bytes, dataLen: nat, data: Bytes)
    requires 4 + dataLen <= |b0| && |data| <= dataLen && Blank(b0, |b0|) && Written(b0, b1, 4, data)
    ensures b1[..dataLen + 4] == Zeros(4) + (data + Zeros(dataLen - |data|))
    ensures Blank(b1[dataLen + 4..], |b0| - dataLen - 4)
  {
  }

  /** The length is put into one of the first four bytes. */
  lemma HeadIs(proto: Proto, dataLen: nat)
    ensures Head(proto, dataLen)
         == if proto.ICMPv4? then Zeros(4)[1 := Low(dataLen / 4)] else Zeros(4)[0 := Low(dataLen / 8)]
  {
    hide Low;
    assert Zeros(4) == [0, 0, 0, 0];
  }

  lemma HeadWritten(proto: Proto, b2: Bytes, b3: Bytes, dataLen: nat, padded: Bytes, s: Bytes)
    requires b2 == Zeros(4) + padded + s
    requires b3 == if proto.ICMPv4? then b2[1 := Low(dataLen / 4)] else b2[0 := Low(dataLen / 8)]
    ensures b3 == Head(proto, dataLen) + padded + s
  {
    hide Low, Head, Zeros;
    HeadIs(proto, dataLen);
    var i, v := if proto.ICMPv4? then 1 else 0, if proto.ICMPv4? then Low(dataLen / 4) else Low(dataLen / 8);
    OneSet(Zeros(4), padded + s, i, v);
    Joined(Zeros(4), padded, s);
    Joined(Head(proto, dataLen), padded, s);
  }

  lemma OneSet(h: Bytes, rest: Bytes, i: nat, v: Byte)
    requires i < |h|
    ensures (h + rest)[i := v] == h[i := v] + rest
  {
  }
}
