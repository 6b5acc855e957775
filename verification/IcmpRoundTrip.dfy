/** Multi-part messages come back as they were marshaled. */
module IcmpRoundTrip {
  import opened Utf8
  import opened IcmpChecksum
  import opened IcmpObjects
  import opened IcmpOverwrite
  import opened IcmpObjectRoundTrip
  import opened IcmpMultipart

  /** Every object's type names its attributes, and its length fits its length field. */
  predicate Sendable(proto: Proto, exts: seq<Extension>) {
    forall k :: 0 <= k < |exts| ==> TypeFits(proto, exts[k]) && Len(proto, exts[k]) < 0x1_0000
  }

  /** What the receiver gets of objects that are written over b. The end of a name of more than 63 bytes is written into
      the next object, where nothing but the padding of that object's name is left of it. */
  function ReceivedAll(proto: Proto, exts: seq<Extension>, b: Bytes): (r: seq<Extension>)
    requires Sendable(proto, exts) && ObjectsLen(proto, exts) <= |b|
    ensures |r| == |exts|
  {
    if exts == [] then []
    else
      var x := exts[0];
      [Received(proto, x, ObjectPadding(proto, x, b))]
        + ReceivedAll(proto, exts[1..], Over(ObjectExcess(proto, x), b[Len(proto, x)..]))
  }

  lemma BytesHead(proto: Proto, x: Extension, b: Bytes)
    requires Len(proto, x) <= |b|
    ensures var w := ObjectBytes(proto, x, b);
      w == Bytes16(Len(proto, x)) + w[2..] && w[2] == (if x.MPLS? then CLASS_MPLS else CLASS_INFO)
  {
    hide Len, Bytes16, RestOver, LabelsWire;
  }

  /** How parseExtensions sees the first of several objects. */
  lemma FirstObject(proto: Proto, exts: seq<Extension>, b: Bytes)
    requires exts != [] && ObjectsLen(proto, exts) <= |b|
    ensures
      var x := exts[0]; var w, l := ObjectsOver(proto, exts, b), Len(proto, x);
      && |b| >= l && Int16(w) == l % 0x1_0000 && w[2] == (if x.MPLS? then CLASS_MPLS else CLASS_INFO)
      && w[..l] == ObjectBytes(proto, x, b)
      && ObjectsLen(proto, exts[1..]) <= |b| - l
      && w[l..] == ObjectsOver(proto, exts[1..], Over(ObjectExcess(proto, x), b[l..]))
  {
    hide Len, ObjectBytes, ObjectsOver, Int16, ObjectExcess, Over;
    var x := exts[0];
    FirstSplit(proto, exts, b);
    BytesHead(proto, x, b);
    HeadBack(ObjectBytes(proto, x, b), ObjectsOver(proto, exts[1..], Over(ObjectExcess(proto, x), b[Len(proto, x)..])),
             Len(proto, x));
  }

  lemma FirstSplit(proto: Proto, exts: seq<Extension>, b: Bytes)
    requires exts != [] && ObjectsLen(proto, exts) <= |b|
    ensures
      var x := exts[0]; var l := Len(proto, x);
      && ObjectsLen(proto, exts) == l + ObjectsLen(proto, exts[1..])
      && ObjectsOver(proto, exts, b)
      == ObjectBytes(proto, x, b) + ObjectsOver(proto, exts[1..], Over(ObjectExcess(proto, x), b[l..]))
  {
    hide Len, ObjectOver, ObjectBytes, ObjectExcess, Over;
    ObjectSplit(proto, exts[0], b);
  }

  lemma HeadBack(w: Bytes, rest: Bytes, l: nat)
    requires |w| == l >= 4 && w == Bytes16(l) + w[2..]
    ensures Int16(w + rest) == l % 0x1_0000 && (w + rest)[2] == w[2]
    ensures (w + rest)[..l] == w && (w + rest)[l..] == rest
  {
    hide Int16, Bytes16;
    Int16Back(l, w[2..] + rest);
    assert w + rest == Bytes16(l) + (w[2..] + rest);
  }

  /** The objects come back as their receiver gets them, whatever they are written over. */
  lemma {:induction false} ObjectsBack(proto: Proto, exts: seq<Extension>, b: Bytes)
    requires Sendable(proto, exts) && ObjectsLen(proto, exts) == |b|
    ensures ObjectsAt(ObjectsOver(proto, exts, b)) == Ok(ReceivedAll(proto, exts, b))
  {
    hide ObjectAt, ObjectsAt, Received, ReceivedAll, Len, TypeFits, ObjectBytes, ObjectPadding, ObjectExcess, Int16,
         ObjectOver, ObjectsOver, Over;
    if exts == [] {
      NoObjects(proto, b);
      NothingAt(b);
    } else {
      var x := exts[0];
      FirstObject(proto, exts, b);
      ObjectBack(proto, x, b);
      ReceivedFirst(proto, exts, b);
      FirstIsSame(ObjectsOver(proto, exts, b), ReceivedAll(proto, exts, b));
      ObjectsBack(proto, exts[1..], Over(ObjectExcess(proto, x), b[Len(proto, x)..]));
    }
  }

  /** No name is written beyond its field and into the next object. */
  predicate NamesFit(exts: seq<Extension>) {
    forall k :: 0 <= k < |exts| - 1 ==> NameFits(exts[k])
  }

  lemma NothingOver(b: Bytes)
    ensures Over([], b) == b
  {
  }

  lemma ReceivedFirst(proto: Proto, exts: seq<Extension>, b: Bytes)
    requires Sendable(proto, exts) && ObjectsLen(proto, exts) <= |b| && exts != []
    ensures ObjectsLen(proto, exts[1..]) + Len(proto, exts[0]) <= |b|
    ensures ReceivedAll(proto, exts, b) == [Received(proto, exts[0], ObjectPadding(proto, exts[0], b))]
      + ReceivedAll(proto, exts[1..], Over(ObjectExcess(proto, exts[0]), b[Len(proto, exts[0])..]))
  {
    hide Received, Len, TypeFits, ObjectPadding, ObjectExcess;
  }

  /** The objects one behind the other, each as it is on the wire. */
  function Wires(proto: Proto, exts: seq<Extension>): Bytes {
    if exts == [] then [] else Wire(proto, exts[0]) + Wires(proto, exts[1..])
  }

  /** Then these are the bytes. */
  lemma {:induction false} ObjectsAreWires(proto: Proto, exts: seq<Extension>, b: Bytes)
    requires NamesFit(exts) && ObjectsLen(proto, exts) == |b| && Blank(b, |b|)
    ensures ObjectsOver(proto, exts, b) == Wires(proto, exts)
  {
    hide Len, Wire, ObjectBytes, ObjectExcess, NameFits, ObjectsOver, Over;
    if exts == [] {
      NoObjects(proto, b);
    } else {
      var x := exts[0];
      FirstSplit(proto, exts, b);
      BlankObject(proto, x, b);
      if |exts| > 1 {
        assert NameFits(exts[0]);
        RestFits(exts);
        NothingOver(b[Len(proto, x)..]);
        ObjectsAreWires(proto, exts[1..], b[Len(proto, x)..]);
      } else {
        NoObjects(proto, Over(ObjectExcess(proto, x), b[Len(proto, x)..]));
      }
    }
  }

  lemma RestFits(exts: seq<Extension>)
    requires NamesFit(exts) && exts != []
    ensures NamesFit(exts[1..])
  {
    hide NameFits;
    assert forall k :: 0 <= k < |exts| - 2 ==> exts[1..][k] == exts[k + 1];
  }

  /** And each object comes back as if it were alone. */
  lemma {:induction false} ReceivedAlone(proto: Proto, exts: seq<Extension>, b: Bytes)
    requires Sendable(proto, exts) && NamesFit(exts) && Blank(b, ObjectsLen(proto, exts))
    ensures forall k :: 0 <= k < |exts| ==> ReceivedAll(proto, exts, b)[k] == Received(proto, exts[k], [])
  {
    hide Received, Len, TypeFits, ObjectPadding, ObjectExcess, NameFits;
    hide ReceivedAll, Over;
    if exts != [] {
      var x := exts[0];
      var rest := ReceivedAll(proto, exts[1..], Over(ObjectExcess(proto, x), b[Len(proto, x)..]));
      ReceivedFirst(proto, exts, b);
      BlankReceived(proto, x, b);
      if |exts| > 1 {
        assert NameFits(exts[0]);
        NothingOver(b[Len(proto, x)..]);
        RestFits(exts);
        ReceivedAlone(proto, exts[1..], b[Len(proto, x)..]);
      }
      forall k | 0 <= k < |exts| ensures ReceivedAll(proto, exts, b)[k] == Received(proto, exts[k], []) {
        if k > 0 {
          assert exts[1..][k - 1] == exts[k] && ReceivedAll(proto, exts, b)[k] == rest[k - 1];
        }
      }
    }
  }

  lemma {:induction false} LabelsCount(b: Bytes)
    ensures |LabelsAt(b)| == |b| / 4
  {
    if |b| >= 4 {
      LabelsCount(b[4..]);
    }
  }

  /** The length of a label stack that is too long is taken modulo 65536, so that labels are missing. */
  lemma LongStack(proto: Proto, exts: seq<Extension>, b: Bytes)
    requires exts != [] && Len(proto, exts[0]) >= 0x1_0000 && ObjectsLen(proto, exts) == |b|
    ensures ObjectsAt(ObjectsOver(proto, exts, b)) != Ok(exts)
  {
    hide ObjectBytes, ObjectsOver, ObjectExcess, Int16, LabelAt;
    var x, w := exts[0], ObjectsOver(proto, exts, b);
    FirstObject(proto, exts, b);
    assert x.MPLS?;
    var ol := Int16(w);
    if ol >= 4 {
      LabelsCount(w[..ol][4..]);
    }
  }

  /** Objects that are written over zeros come back as they were exactly if they are all canonical. */
  lemma {:induction false} ObjectsAreSame(proto: Proto, exts: seq<Extension>, b: Bytes)
    requires Blank(b, |b|) && ObjectsLen(proto, exts) == |b|
    ensures ObjectsAt(ObjectsOver(proto, exts, b)) == Ok(exts)
      <==> forall k :: 0 <= k < |exts| ==> Canonical(proto, exts[k])
  {
    hide ObjectAt, ObjectsAt, Len, ObjectBytes, ObjectExcess, Int16, ObjectOver, ObjectsOver, Canonical, Over;
    if exts == [] {
      NoObjects(proto, b);
      NothingAt(b);
    } else {
      var x := exts[0];
      FirstObject(proto, exts, b);
      if Canonical(proto, x) {
        CanonicalFits(proto, x);
      }
      if Len(proto, x) >= 0x1_0000 {
        LongStack(proto, exts, b);
      } else {
        ObjectIsSame(proto, x, b);
        FirstIsSame(ObjectsOver(proto, exts, b), exts);
        if Canonical(proto, x) {
          NothingOver(b[Len(proto, x)..]);
          ObjectsAreSame(proto, exts[1..], b[Len(proto, x)..]);
          AllFrom(proto, exts);
        }
      }
    }
  }

  lemma NothingAt(b: Bytes)
    ensures |b| < 4 ==> ObjectsAt(b) == Ok([])
  {
  }

  lemma AllFrom(proto: Proto, exts: seq<Extension>)
    requires exts != [] && Canonical(proto, exts[0])
    ensures (forall k :: 0 <= k < |exts| ==> Canonical(proto, exts[k]))
      <==> forall k :: 0 <= k < |exts[1..]| ==> Canonical(proto, exts[1..][k])
  {
    hide Canonical;
    assert forall k :: 1 <= k < |exts| ==> exts[k] == exts[1..][k - 1];
  }

  /** parseExtensions gives these objects exactly if the first is the first and the rest the rest. */
  lemma FirstIsSame(w: Bytes, exts: seq<Extension>)
    requires exts != [] && |w| >= 4 && 4 <= Int16(w) <= |w| && (w[2] == CLASS_MPLS || w[2] == CLASS_INFO)
    ensures ObjectsAt(w) == Ok(exts)
      <==> ObjectAt(w[..Int16(w)]) == Ok(exts[0]) && ObjectsAt(w[Int16(w)..]) == Ok(exts[1..])
  {
    hide ObjectAt, Int16;
    assert exts == [exts[0]] + exts[1..];
  }

  lemma CanonicalFits(proto: Proto, x: Extension)
    requires Canonical(proto, x)
    ensures Len(proto, x) < 0x1_0000 && ObjectExcess(proto, x) == []
  {
  }

  /** The header of an extension structure is accepted. */
  lemma StructureIsValid(proto: Proto, exts: seq<Extension>)
    ensures ValidHeader(Structure(proto, exts))
    ensures Structure(proto, exts)[4..] == ObjectsWire(proto, exts)
  {
    hide ChecksumOf, Patched, ObjectsWire, ObjectsLen;
    var raw := HEADER + ObjectsWire(proto, exts);
    ZeroField(raw, 2);
  }

  /** The length byte holds the length of the padded data exactly up to this many bytes of data. */
  function MaxData(proto: Proto): nat {
    if proto.ICMPv4? then 1019 else 2039
  }

  lemma LengthByte(proto: Proto, n: nat, rest: Bytes)
    ensures LengthAttribute(proto, Head(proto, PaddedLen(proto, n)) + rest) == PaddedLen(proto, n)
      <==> n <= MaxData(proto)
  {
  }

  lemma Slices(h: Bytes, p: Bytes, e: Bytes)
    requires |h| == 4 && |e| >= 4
    ensures h + p + e == h + (p + e) && (h + p + e)[4..] == p + e && (h + p + e)[4..4 + |p|] == p
    ensures (p + e)[|p|..] == e && (p + e)[|p| + 4..] == e[4..]
  {
  }

  /** A body whose length attribute is right and whose extension structure is accepted is taken apart where it was put
      together. */
  lemma PartsBack(proto: Proto, h: Bytes, p: Bytes, e: Bytes, exts: seq<Extension>)
    requires |h| == 4 && |p| >= 128 && |e| >= 8 && LengthAttribute(proto, h + p + e) == |p|
    requires ValidHeader(e) && ObjectsAt(e[4..]) == Ok(exts)
    ensures BodyAt(proto, h + p + e) == (p, exts)
  {
    hide ValidHeader, ObjectsAt, LengthAttribute;
    Slices(h, p, e);
  }

  /** Whatever the objects, what comes back of more data than that has another length. */
  lemma TooMuchData(proto: Proto, data: Bytes, exts: seq<Extension>)
    requires exts != [] && |data| > MaxData(proto)
    ensures |Body(proto, data, exts)| >= 4
    ensures |BodyAt(proto, Body(proto, data, exts)).0| != PaddedLen(proto, |data|)
  {
    hide ValidHeader, Structure, ObjectsWire, ObjectsAt, ObjectsLen, Head;
    var l := PaddedLen(proto, |data|);
    var b := Body(proto, data, exts);
    assert |b| == 4 + l + 4 + ObjectsLen(proto, exts);
    assert l > if proto.ICMPv4? then 4 * 255 else 8 * 255;
  }

  /** The data that is sent: padded with zeros. */
  function Padded(proto: Proto, data: Bytes): (p: Bytes)
    ensures |p| == PaddedLen(proto, |data|)
  {
    data + Zeros(PaddedLen(proto, |data|) - |data|)
  }

  /** Objects that cannot be parsed are lost. */
  lemma PartsLost(proto: Proto, h: Bytes, p: Bytes, e: Bytes)
    requires |h| == 4 && |p| >= 128 && |e| >= 8 && LengthAttribute(proto, h + p + e) == |p|
    requires ValidHeader(e) && ObjectsAt(e[4..]).Err?
    ensures BodyAt(proto, h + p + e).1 == []
  {
    hide ValidHeader, ObjectsAt, LengthAttribute;
    Slices(h, p, e);
  }

  /** The parts of a body with not too much data. */
  lemma BodyParts(proto: Proto, data: Bytes, exts: seq<Extension>)
    requires exts != [] && |data| <= MaxData(proto)
    ensures |Body(proto, data, exts)| >= 4
    ensures var r := ObjectsAt(ObjectsWire(proto, exts));
      if r.Ok? then BodyAt(proto, Body(proto, data, exts)) == (Padded(proto, data), r.value)
      else BodyAt(proto, Body(proto, data, exts)).1 == []
  {
    hide ValidHeader, Structure, ObjectsWire, ObjectsAt, PaddedLen, ObjectsLen, Head, LengthAttribute, BodyAt, MaxData;
    var l := PaddedLen(proto, |data|);
    var h, ext := Head(proto, l), Structure(proto, exts);
    LengthByte(proto, |data|, Padded(proto, data) + ext);
    StructureIsValid(proto, exts);
    assert h + Padded(proto, data) + ext == h + (Padded(proto, data) + ext);
    if ObjectsAt(ObjectsWire(proto, exts)).Ok? {
      PartsBack(proto, h, Padded(proto, data), ext, ObjectsAt(ObjectsWire(proto, exts)).value);
    } else {
      PartsLost(proto, h, Padded(proto, data), ext);
    }
  }

  /** The data comes back padded with zeros exactly up to MaxData, and then the objects come as their receiver gets
      them. */
  lemma BodyBack(proto: Proto, data: Bytes, exts: seq<Extension>)
    requires exts != [] && Sendable(proto, exts)
    ensures |Body(proto, data, exts)| >= 4
    ensures BodyAt(proto, Body(proto, data, exts)).0 == Padded(proto, data) <==> |data| <= MaxData(proto)
    ensures |data| <= MaxData(proto) ==>
      BodyAt(proto, Body(proto, data, exts))
      == (Padded(proto, data), ReceivedAll(proto, exts, Zeros(ObjectsLen(proto, exts))))
  {
    hide ObjectsAt, ReceivedAll, ObjectsLen, BodyAt, Body, MaxData, Sendable;
    if |data| > MaxData(proto) {
      TooMuchData(proto, data, exts);
    } else {
      BodyParts(proto, data, exts);
      ObjectsBack(proto, exts, Zeros(ObjectsLen(proto, exts)));
    }
  }

  /** Whatever the data and the objects, they come back as they were exactly if there is not too much data and all
      objects are canonical. */
  lemma BodyRoundTrip(proto: Proto, data: Bytes, exts: seq<Extension>)
    requires exts != []
    ensures |Body(proto, data, exts)| >= 4
    ensures BodyAt(proto, Body(proto, data, exts)) == (Padded(proto, data), exts)
      <==> |data| <= MaxData(proto) && forall k :: 0 <= k < |exts| ==> Canonical(proto, exts[k])
  {
    hide ObjectsAt, ObjectsLen, BodyAt, Body, MaxData, Canonical;
    if |data| > MaxData(proto) {
      TooMuchData(proto, data, exts);
    } else {
      BodyParts(proto, data, exts);
      ObjectsAreSame(proto, exts, Zeros(ObjectsLen(proto, exts)));
    }
  }
}
