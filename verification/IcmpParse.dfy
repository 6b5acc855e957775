/** The parsing loops of icmp/mpls.go, icmp/interface.go, icmp/extension.go and icmp/multipart.go. */
module IcmpParse {
  import opened Options
  import opened Utf8
  import opened IcmpChecksum
  import opened IcmpObjects
  import opened IcmpMultipart

  method ParseMPLSLabelStack(b0: Bytes) returns (ls: Extension)
    requires |b0| >= 4
    ensures ls == MPLSAt(b0)
  {
    var labels: seq<Label> := [];
    var b := b0[4..];
    while |b| >= 4
      invariant labels + LabelsAt(b) == LabelsAt(b0[4..])
      decreases |b|
    {
      ghost var rest := LabelsAt(b[4..]);
      assert labels + ([LabelAt(b)] + rest) == (labels + [LabelAt(b)]) + rest;
      labels := labels + [LabelAt(b)];
      b := b[4..];
    }
    ls := MPLS(b0[2], b0[3], labels);
  }

  method ParseInterfaceInfo(b0: Bytes) returns (r: Result<Extension>)
    requires |b0| >= 4
    ensures r == InfoAt(b0)
  {
    hide NameAt, AddrAt, Zoned;
    var attrs := AttrsIn(b0[3]);
    var x := Found(if attrs.ifIndex || attrs.name || attrs.mtu then Some(Interface(0, 0, [])) else None,
                   if attrs.ipAddr then Some(Addr([], [])) else None);
    var b := b0[4..];
    ghost var goal := ParseAttrs(b, attrs, x);
    while |b| > 0 && attrs != NO_ATTRS
      invariant attrs.ifIndex || attrs.name || attrs.mtu ==> x.iface.Some?
      invariant attrs.ipAddr ==> x.addr.Some?
      invariant ParseAttrs(b, attrs, x) == goal
      decreases attrs.ifIndex, attrs.ipAddr, attrs.name, attrs.mtu
    {
      if attrs.ifIndex {
        if |b| < 4 {
          return Err(MessageTooShort);
        }
        x := x.(iface := Some(x.iface.value.(index := Int32(b))));
        b := b[4..];
        attrs := attrs.(ifIndex := false);
      } else if attrs.ipAddr {
        var a := ParseIPAddr(b);
        if a.Err? {
          return Err(a.error);
        }
        var (ip, l) := a.value;
        AddrTakes(b);
        if l > 4 {
          x := x.(addr := Some(x.addr.value.(ip := ip)));
        }
        b := b[l..];
        attrs := attrs.(ipAddr := false);
      } else if attrs.name {
        var n := ParseName(b);
        if n.Err? {
          return Err(n.error);
        }
        var (name, l) := n.value;
        NameTakes(b);
        x := x.(iface := Some(x.iface.value.(name := name)));
        b := b[l..];
        attrs := attrs.(name := false);
      } else {
        if |b| < 4 {
          return Err(MessageTooShort);
        }
        x := x.(iface := Some(x.iface.value.(mtu := Int32(b))));
        b := b[4..];
        attrs := attrs.(mtu := false);
      }
    }
    x := Zoned(x);
    r := Ok(Info(b0[2], b0[3], x.iface, x.addr));
  }

  lemma AddrTakes(b: Bytes)
    requires AddrAt(b).Ok?
    ensures AddrAt(b).value.1 in {4, 8, 20} && AddrAt(b).value.1 <= |b|
  {
  }

  lemma NameTakes(b: Bytes)
    requires NameAt(b).Ok?
    ensures NameAt(b).value.1 <= |b|
  {
  }

  method ParseIPAddr(b: Bytes) returns (r: Result<(Bytes, nat)>)
    ensures r == AddrAt(b)
  {
    if |b| < 4 {
      return Err(MessageTooShort);
    }
    var afi := Int16(b);
    if afi == 1 {
      return if |b| < 8 then Err(MessageTooShort) else Ok((b[4..8], 8));
    } else if afi == 2 {
      return if |b| < 20 then Err(MessageTooShort) else Ok((b[4..20], 20));
    }
    assert b[4..4] == [];
    return Ok(([], 4));
  }

  method ParseName(b: Bytes) returns (r: Result<(Bytes, nat)>)
    ensures r == NameAt(b)
  {
    if 4 > |b| || |b| < b[0] {
      return Err(MessageTooShort);
    }
    var l := b[0];
    if l % 4 != 0 || 4 > l || l > 64 {
      return Err(InvalidExtension);
    }
    var name := new Byte[63](_ => 0);
    forall k | 0 <= k < l - 1 {
      name[k] := b[k + 1];
    }
    assert name[..] == b[1..l] + Zeros(64 - l);
    return Ok((TrimLeft(TrimRight(name[..])), l));
  }

  method ValidExtensionHeader(b: Bytes) returns (ok: bool)
    requires |b| >= 4
    ensures ok == ValidHeader(b)
  {
    hide ChecksumOf;
    var v := b[0] / 16;
    var s := Int16(b[2..]);
    if s != 0 {
      s := Checksum(b);
    }
    ok := v == 2 && s == 0;
  }

  method ParseExtensions(b0: Bytes, attribute: nat) returns (r: Result<Extensions>)
    ensures r == ExtensionsAt(b0, attribute)
    ensures r.Ok? ==> r.value.l <= |b0|
  {
    hide ObjectsAt, ValidHeader;
    var l := attribute;
    if 128 > l || l + 8 > |b0| {
      l := 128;
    }
    if l + 8 > |b0| {
      return Err(NoExtension);
    }
    var ok := ValidExtensionHeader(b0[l..]);
    if !ok {
      if l == 128 {
        return Err(NoExtension);
      }
      l := 128;
      ok := ValidExtensionHeader(b0[l..]);
      if !ok {
        return Err(NoExtension);
      }
    }
    var exts := ParseObjects(b0[l + 4..]);
    match exts {
      case Err(e) => return Err(e);
      case Ok(x) => return Ok(Extensions(x, l));
    }
  }

  /** The loop of parseExtensions. */
  method ParseObjects(b0: Bytes) returns (r: Result<seq<Extension>>)
    ensures r == ObjectsAt(b0)
  {
    hide InfoAt, MPLSAt;
    var exts: seq<Extension> := [];
    var b := b0;
    AfterNothing(ObjectsAt(b0));
    while |b| >= 4
      invariant ObjectsAt(b0) == After(exts, ObjectsAt(b))
      decreases |b|
    {
      var ol := Int16(b);
      if 4 > ol || ol > |b| {
        break;
      }
      if b[2] == CLASS_MPLS {
        var x := ParseMPLSLabelStack(b[..ol]);
        AfterNext(exts, x, ObjectsAt(b[ol..]));
        exts := exts + [x];
      } else if b[2] == CLASS_INFO {
        var x := ParseInterfaceInfo(b[..ol]);
        if x.Err? {
          return Err(x.error);
        }
        AfterNext(exts, x.value, ObjectsAt(b[ol..]));
        exts := exts + [x.value];
      }
      b := b[ol..];
    }
    assert exts + [] == exts;
    r := Ok(exts);
  }

  /** The objects parsed so far, and then the rest. */
  ghost function After(exts: seq<Extension>, r: Result<seq<Extension>>): Result<seq<Extension>> {
    match r
    case Err(e) => Err(e)
    case Ok(rest) => Ok(exts + rest)
  }

  lemma AfterNothing(r: Result<seq<Extension>>)
    ensures After([], r) == r
  {
    if r.Ok? {
      assert [] + r.value == r.value;
    }
  }

  lemma AfterNext(exts: seq<Extension>, x: Extension, r: Result<seq<Extension>>)
    ensures After(exts + [x], r) == After(exts, After([x], r))
  {
    if r.Ok? {
      assert exts + [x] + r.value == exts + ([x] + r.value);
    }
  }

  method ParseMultipartMessageBody(proto: Proto, b: Bytes) returns (data: Bytes, exts: seq<Extension>)
    requires |b| >= 4
    ensures (data, exts) == BodyAt(proto, b)
  {
    hide ExtensionsAt;
    if |b| == 4 {
      return [], [];
    }
    var r := ParseExtensions(b[4..], LengthAttribute(proto, b));
    var l;
    if r.Err? {
      l, exts := |b| - 4, [];
    } else {
      l, exts := r.value.l, r.value.exts;
    }
    assert r.Err? ==> b[4..4 + l] == b[4..];
    data := b[4..4 + l];
  }
}
