/** How extension objects are written to a buffer, in icmp/mpls.go and icmp/interface.go. */
module IcmpMarshal {
  import opened Options
  import opened Utf8
  import opened IcmpObjects
  import opened IcmpOverwrite

  /** A part of a buffer is s, and the rest of it as it was. */
  ghost predicate Written(before: Bytes, after: Bytes, at: nat, s: Bytes) {
    at + |s| <= |before| == |after| && after == before[..at] + s + before[at + |s|..]
  }

  lemma WrittenTwice(b0: Bytes, b1: Bytes, b2: Bytes, at: nat, s: Bytes, t: Bytes)
    requires Written(b0, b1, at, s) && Written(b1, b2, at + |s|, t)
    ensures Written(b0, b2, at, s + t)
  {
    assert b1[..at + |s|] == b0[..at] + s;
    assert b1[at + |s| + |t|..] == b0[at + |s| + |t|..];
  }

  method Put4(b: array<Byte>, off: nat, s0: Byte, s1: Byte, s2: Byte, s3: Byte)
    requires off + 4 <= b.Length
    modifies b
    ensures Written(old(b[..]), b[..], off, [s0, s1, s2, s3])
  {
    b[off], b[off + 1], b[off + 2], b[off + 3] := s0, s1, s2, s3;
  }

  /** copy(b[off:], s) */
  method Copy(b: array<Byte>, off: nat, s: Bytes)
    requires off <= b.Length
    modifies b
    ensures off + |s| <= b.Length ==> Written(old(b[..]), b[..], off, s)
    ensures forall k :: 0 <= k < b.Length ==> b[k] == if off <= k < off + |s| then s[k - off] else old(b[k])
  {
    forall k | 0 <= k < |s| && off + k < b.Length {
      b[off + k] := s[k];
    }
  }

  // ----- MPLS label stacks -----

  method MarshalMPLS(proto: Proto, x: Extension, b: array<Byte>, at: nat)
    requires x.MPLS? && at + Len(proto, x) <= b.Length
    modifies b
    ensures Written(old(b[..]), b[..], at, Wire(proto, x))
  {
    hide LabelWire, LabelsWire, Written;
    var l := Len(proto, x);
    ghost var b0 := b[..];
    Put4(b, at, Low(l / 256), Low(l), 1, 1);
    ghost var head := [Low(l / 256), Low(l), 1, 1];
    var off := at + 4;
    var n := 0;
    assert head + LabelsWire(x.labels[..0]) == head;
    while n < |x.labels|
      invariant 0 <= n <= |x.labels| && off == at + 4 + 4 * n
      invariant Written(b0, b[..], at, head + LabelsWire(x.labels[..n]))
    {
      var ll := x.labels[n];
      ghost var b1 := b[..];
      PutLabel(b, off, ll);
      LabelsWireAppend(x.labels[..n], ll);
      assert x.labels[..n + 1] == x.labels[..n] + [ll];
      WrittenTwice(b0, b1, b[..], at, head + LabelsWire(x.labels[..n]), LabelWire(ll));
      assert head + LabelsWire(x.labels[..n]) + LabelWire(ll) == head + LabelsWire(x.labels[..n + 1]);
      off := off + 4;
      n := n + 1;
    }
    assert x.labels[..n] == x.labels;
    assert head + LabelsWire(x.labels) == Wire(proto, x);
  }

  method PutLabel(b: array<Byte>, off: nat, ll: Label)
    requires off + 4 <= b.Length
    modifies b
    ensures Written(old(b[..]), b[..], off, LabelWire(ll))
  {
    var third := 16 * (ll.number % 16);
    third := third + 2 * (ll.tc % 8);
    if ll.s {
      third := third + 1;
    }
    Put4(b, off, Low(ll.number / 4096), Low(ll.number / 16), third, Low(ll.ttl));
  }

  lemma {:induction false} LabelsWireAppend(ls: seq<Label>, l: Label)
    ensures LabelsWire(ls + [l]) == LabelsWire(ls) + LabelWire(l)
  {
    if ls == [] {
      assert ls + [l] == [l] && [l][1..] == [];
    } else {
      assert (ls + [l])[1..] == ls[1..] + [l];
      LabelsWireAppend(ls[1..], l);
    }
  }

  // ----- interface information -----

  method Put32(b: array<Byte>, off: nat, x: int)
    requires off + 4 <= b.Length
    modifies b
    ensures Written(old(b[..]), b[..], off, Bytes32(x))
  {
    Put4(b, off, Low(x / 0x100_0000), Low(x / 0x1_0000), Low(x / 256), Low(x));
  }

  /** marshalIPAddr; the two reserved bytes are left as they are. */
  method MarshalIPAddr(proto: Proto, ip: Bytes, b: array<Byte>, off: nat)
    requires Carried(proto, ip) != [] && off + 4 + |Carried(proto, ip)| <= b.Length
    modifies b
    ensures Written(old(b[..]), b[..], off, AddrOver(proto, ip, old(b[off..])))
  {
    hide Carried;
    ghost var b0, family := b[..], Bytes16(if proto.ICMPv4? then 1 else 2);
    b[off], b[off + 1] := 0, if proto.ICMPv4? then 1 else 2;
    ghost var b1, reserved := b[..], b[off + 2..off + 4];
    Copy(b, off + 4, Carried(proto, ip));
    assert reserved == b0[off..][2..4];
    assert Written(b0, b1, off, family + reserved);
    WrittenTwice(b0, b1, b[..], off, family + reserved, Carried(proto, ip));
  }

  /** marshalName; the padding is left as it is, and a name of more than 63 bytes is written beyond its field. */
  method MarshalName(name: Bytes, b: array<Byte>, off: nat)
    requires name != [] && off + NameLen(name) <= b.Length
    modifies b
    ensures b[..] == old(b[..off]) + NameOver(name, old(b[off..]))
  {
    b[off] := NameLen(name);
    Copy(b, off + 1, name);
  }

  /** One round of the loop in InterfaceInfo.marshal: what is left to be done completes what there was to be done. */
  method MarshalAttr(proto: Proto, a: Attrs, iface: Option<Interface>, addr: Option<Addr>, b: array<Byte>, off: nat)
    returns (left: Attrs, next: nat)
    requires Present(proto, a, iface, addr) && a != NO_ATTRS && off + RestLen(proto, a, iface, addr) <= b.Length
    modifies b
    ensures Present(proto, left, iface, addr) && Count(left) < Count(a)
    ensures next + RestLen(proto, left, iface, addr) == off + RestLen(proto, a, iface, addr)
    ensures b[..next] + AttrsOver(proto, left, iface, addr, b[next..])
         == old(b[..off]) + AttrsOver(proto, a, iface, addr, old(b[off..]))
  {
    hide Carried, NameLen, NameOver, AddrOver, Bytes32, Written, AttrsOver;
    ghost var b0 := b[..];
    AttrsStep(proto, a, iface, addr, b[off..]);
    left := a;
    if a.ifIndex {
      Put32(b, off, iface.value.index);
      left := a.(ifIndex := false);
      next := off + 4;
      WrittenSplits(b0, b[..], off, Bytes32(iface.value.index));
    } else if a.ipAddr {
      MarshalIPAddr(proto, addr.value.ip, b, off);
      left := a.(ipAddr := false);
      next := off + 4 + |Carried(proto, addr.value.ip)|;
      WrittenSplits(b0, b[..], off, AddrOver(proto, addr.value.ip, b0[off..]));
    } else if a.name {
      MarshalName(iface.value.name, b, off);
      left := a.(name := false);
      next := off + NameLen(iface.value.name);
      PartSplits(b0, b[..], off, NameLen(iface.value.name), NameOver(iface.value.name, b0[off..]));
    } else {
      Put32(b, off, iface.value.mtu);
      left := a.(mtu := false);
      next := off + 4;
      WrittenSplits(b0, b[..], off, Bytes32(iface.value.mtu));
    }
  }

  lemma WrittenSplits(b0: Bytes, b1: Bytes, off: nat, s: Bytes)
    requires Written(b0, b1, off, s)
    ensures off + |s| <= |b1| && b1[..off + |s|] == b0[..off] + s && b1[off + |s|..] == b0[off..][|s|..]
    ensures forall t :: (b0[..off] + s) + t == b0[..off] + (s + t)
  {
  }

  lemma PartSplits(b0: Bytes, b1: Bytes, off: nat, l: nat, u: Bytes)
    requires off <= |b0| && b1 == b0[..off] + u && l <= |u|
    ensures b1[..off + l] == b0[..off] + u[..l] && b1[off + l..] == u[l..]
    ensures forall t :: (b0[..off] + u[..l]) + t == b0[..off] + (u[..l] + t)
  {
  }

  /** The loop of InterfaceInfo.marshal. */
  method MarshalAttrs(proto: Proto, a: Attrs, iface: Option<Interface>, addr: Option<Addr>, b: array<Byte>, at: nat)
    requires Present(proto, a, iface, addr) && at + RestLen(proto, a, iface, addr) <= b.Length
    modifies b
    ensures b[..] == old(b[..at]) + AttrsOver(proto, a, iface, addr, old(b[at..]))
  {
    hide Carried, RestLen, AttrsOver;
    ghost var l, want := RestLen(proto, a, iface, addr), b[..at] + AttrsOver(proto, a, iface, addr, b[at..]);
    var attrs := a;
    var off: nat := at;
    while off < b.Length && attrs != NO_ATTRS
      invariant Present(proto, attrs, iface, addr)
      invariant off + RestLen(proto, attrs, iface, addr) == at + l
      invariant b[..off] + AttrsOver(proto, attrs, iface, addr, b[off..]) == want
      decreases Count(attrs)
    {
      attrs, off := MarshalAttr(proto, attrs, iface, addr, b, off);
    }
    NothingRests(proto, attrs, iface, addr, b[off..]);
    assert b[..off] + b[off..] == b[..];
  }

  /** With no room left there are no attributes left, and without any nothing is left to be written. */
  lemma NothingRests(proto: Proto, a: Attrs, iface: Option<Interface>, addr: Option<Addr>, b: Bytes)
    requires Present(proto, a, iface, addr) && RestLen(proto, a, iface, addr) <= |b|
    ensures RestLen(proto, a, iface, addr) == 0 ==> a == NO_ATTRS
    ensures a == NO_ATTRS ==> AttrsOver(proto, a, iface, addr, b) == b
  {
    hide Carried, NameLen;
  }

  /** InterfaceInfo.marshal, whatever the buffer holds. */
  method MarshalInfo(proto: Proto, x: Extension, b: array<Byte>, at: nat)
    requires x.Info? && at + Len(proto, x) <= b.Length
    modifies b
    ensures b[..] == old(b[..at]) + ObjectOver(proto, x, old(b[at..]))
  {
    hide Carried, Written, RestLen, AttrsOver, Present;
    var l := Len(proto, x);
    var attrs := AttrsOf(proto, x.iface, x.addr);
    ghost var b0, head := b[..], [Low(l / 256), Low(l), 2, Low(x.typ)];
    InfoPresent(proto, x);
    Put4(b, at, Low(l / 256), Low(l), 2, Low(x.typ));
    WrittenSplits(b0, b[..], at, head);
    MarshalAttrs(proto, attrs, x.iface, x.addr, b, at + 4);
    assert head == ObjectHead(proto, x);
  }
}
