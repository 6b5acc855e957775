/** What marshaling an interface information object makes of the bytes that a buffer holds already. */
module IcmpOverwrite {
  import opened Options
  import opened Utf8
  import opened IcmpObjects

  /** The attributes are there. */
  predicate Present(proto: Proto, a: Attrs, iface: Option<Interface>, addr: Option<Addr>) {
    && (a.ifIndex || a.mtu ==> iface.Some?) && (a.name ==> iface.Some? && iface.value.name != [])
    && (a.ipAddr ==> addr.Some? && Carried(proto, addr.value.ip) != [])
  }

  function Count(a: Attrs): nat {
    (if a.ifIndex then 1 else 0) + (if a.ipAddr then 1 else 0) + (if a.name then 1 else 0) + (if a.mtu then 1 else 0)
  }

  /** How long the attributes are. */
  function RestLen(proto: Proto, a: Attrs, iface: Option<Interface>, addr: Option<Addr>): nat
    requires a.ifIndex || a.mtu || a.name ==> iface.Some?
    requires a.ipAddr ==> addr.Some?
  {
    (if a.ifIndex then 4 else 0) + (if a.ipAddr then 4 + |Carried(proto, addr.value.ip)| else 0)
      + (if a.name then NameLen(iface.value.name) else 0) + (if a.mtu then 4 else 0)
  }

  /** copy(b, s) */
  function Over(s: Bytes, b: Bytes): (r: Bytes)
    ensures |r| == |b| && forall k :: 0 <= k < |b| ==> r[k] == if k < |s| then s[k] else b[k]
  {
    if |s| <= |b| then s + b[|s|..] else s[..|b|]
  }

  /** The reserved bytes of an address keep their values. */
  function AddrOver(proto: Proto, ip: Bytes, b: Bytes): (r: Bytes)
    requires 4 + |Carried(proto, ip)| <= |b|
    ensures |r| == 4 + |Carried(proto, ip)|
  {
    Bytes16(if proto.ICMPv4? then 1 else 2) + b[2..4] + Carried(proto, ip)
  }

  /** The padding of a name keeps its values, and a long name runs on behind its field. */
  function NameOver(name: Bytes, b: Bytes): (r: Bytes)
    requires NameLen(name) <= |b|
    ensures |r| == |b|
  {
    [NameLen(name)] + Over(name, b[1..])
  }

  /** What the loop of InterfaceInfo.marshal makes of b, with these attributes left. */
  function AttrsOver(proto: Proto, a: Attrs, iface: Option<Interface>, addr: Option<Addr>, b: Bytes): (r: Bytes)
    requires Present(proto, a, iface, addr) && RestLen(proto, a, iface, addr) <= |b|
    ensures |r| == |b|
    decreases Count(a)
  {
    if a.ifIndex then Bytes32(iface.value.index) + AttrsOver(proto, a.(ifIndex := false), iface, addr, b[4..])
    else if a.ipAddr then
      var l := 4 + |Carried(proto, addr.value.ip)|;
      AddrOver(proto, addr.value.ip, b) + AttrsOver(proto, a.(ipAddr := false), iface, addr, b[l..])
    else if a.name then
      var l, u := NameLen(iface.value.name), NameOver(iface.value.name, b);
      u[..l] + AttrsOver(proto, a.(name := false), iface, addr, u[l..])
    else if a.mtu then Bytes32(iface.value.mtu) + b[4..]
    else b
  }

  lemma AttrsStep(proto: Proto, a: Attrs, iface: Option<Interface>, addr: Option<Addr>, b: Bytes)
    requires Present(proto, a, iface, addr) && RestLen(proto, a, iface, addr) <= |b|
    ensures var all := AttrsOver(proto, a, iface, addr, b);
      if a.ifIndex then
        all == Bytes32(iface.value.index) + AttrsOver(proto, a.(ifIndex := false), iface, addr, b[4..])
      else if a.ipAddr then
        var s := AddrOver(proto, addr.value.ip, b);
        all == s + AttrsOver(proto, a.(ipAddr := false), iface, addr, b[|s|..])
      else if a.name then
        var l, u := NameLen(iface.value.name), NameOver(iface.value.name, b);
        all == u[..l] + AttrsOver(proto, a.(name := false), iface, addr, u[l..])
      else if a.mtu then
        all == Bytes32(iface.value.mtu) + AttrsOver(proto, a.(mtu := false), iface, addr, b[4..])
      else all == b
  {
    hide Carried, AddrOver, NameOver, Bytes32, NameLen;
  }

  function ObjectHead(proto: Proto, x: Extension): (b: Bytes)
    ensures |b| == 4
  {
    Bytes16(Len(proto, x)) + if x.MPLS? then [1, 1] else [2, Low(x.typ)]
  }

  lemma InfoPresent(proto: Proto, x: Extension)
    requires x.Info?
    ensures var a := AttrsOf(proto, x.iface, x.addr);
      Present(proto, a, x.iface, x.addr) && 4 + RestLen(proto, a, x.iface, x.addr) == Len(proto, x)
  {
  }

  /** What marshaling an object makes of b. */
  function ObjectOver(proto: Proto, x: Extension, b: Bytes): (r: Bytes)
    requires Len(proto, x) <= |b|
    ensures |r| == |b|
  {
    if x.MPLS? then Wire(proto, x) + b[Len(proto, x)..]
    else
      InfoPresent(proto, x);
      ObjectHead(proto, x) + AttrsOver(proto, AttrsOf(proto, x.iface, x.addr), x.iface, x.addr, b[4..])
  }

  // ----- the object itself, and what runs on behind it -----

  /** What is behind a name in its field. */
  function BehindName(name: Bytes, b: Bytes): (r: Bytes)
    requires NameLen(name) <= |b|
    ensures 1 + |Cut(name)| + |r| == NameLen(name)
  {
    b[1 + |Cut(name)|..NameLen(name)]
  }

  /** The bytes of a name's field. */
  function NameField(name: Bytes, b: Bytes): (r: Bytes)
    requires NameLen(name) <= |b|
    ensures |r| == NameLen(name)
  {
    [NameLen(name)] + (Cut(name) + BehindName(name, b))
  }

  /** The bytes of the attributes. */
  function RestOver(proto: Proto, a: Attrs, iface: Option<Interface>, addr: Option<Addr>, b: Bytes): (r: Bytes)
    requires Present(proto, a, iface, addr) && RestLen(proto, a, iface, addr) <= |b|
    ensures |r| == RestLen(proto, a, iface, addr)
    decreases Count(a)
  {
    if a.ifIndex then Bytes32(iface.value.index) + RestOver(proto, a.(ifIndex := false), iface, addr, b[4..])
    else if a.ipAddr then
      var l := 4 + |Carried(proto, addr.value.ip)|;
      AddrOver(proto, addr.value.ip, b) + RestOver(proto, a.(ipAddr := false), iface, addr, b[l..])
    else if a.name then
      var l := NameLen(iface.value.name);
      NameField(iface.value.name, b) + RestOver(proto, a.(name := false), iface, addr, b[l..])
    else if a.mtu then Bytes32(iface.value.mtu)
    else []
  }

  /** What is written behind the attributes: the end of a long name, less what the MTU is written over. */
  function Excess(a: Attrs, iface: Option<Interface>): Bytes
    requires a.name ==> iface.Some?
  {
    if !a.name then []
    else if a.mtu then Behind(4, Behind(63, iface.value.name))
    else Behind(63, iface.value.name)
  }

  /** What follows the first n bytes. */
  function Behind(n: nat, s: Bytes): (r: Bytes)
    ensures |s| <= n ==> r == []
  {
    if |s| <= n then [] else s[n..]
  }

  lemma NameSplits(name: Bytes, b: Bytes)
    requires NameLen(name) <= |b|
    ensures var l := NameLen(name);
      && NameOver(name, b)[..l] == NameField(name, b)
      && NameOver(name, b)[l..] == Over(Behind(63, name), b[l..])
  {
  }

  /** The first attribute that is left is written first. */
  lemma FirstAttr(proto: Proto, a: Attrs, iface: Option<Interface>, addr: Option<Addr>, b: Bytes, s: Bytes, left: Attrs)
    requires Present(proto, a, iface, addr) && RestLen(proto, a, iface, addr) <= |b| && (a.ifIndex || a.ipAddr)
    requires a.ifIndex ==> left == a.(ifIndex := false) && s == Bytes32(iface.value.index)
    requires !a.ifIndex ==> left == a.(ipAddr := false) && s == AddrOver(proto, addr.value.ip, b)
    ensures Count(left) < Count(a) && Present(proto, left, iface, addr)
    ensures |s| + RestLen(proto, left, iface, addr) == RestLen(proto, a, iface, addr)
    ensures AttrsOver(proto, a, iface, addr, b) == s + AttrsOver(proto, left, iface, addr, b[|s|..])
    ensures RestOver(proto, a, iface, addr, b) == s + RestOver(proto, left, iface, addr, b[|s|..])
  {
    hide Carried, AddrOver, Bytes32;
  }

  lemma Joined(s: Bytes, t: Bytes, o: Bytes)
    ensures s + (t + o) == (s + t) + o
  {
  }

  lemma {:induction false} AttrsSplit(proto: Proto, a: Attrs, iface: Option<Interface>, addr: Option<Addr>, b: Bytes)
    requires Present(proto, a, iface, addr) && RestLen(proto, a, iface, addr) <= |b|
    ensures AttrsOver(proto, a, iface, addr, b) ==
      RestOver(proto, a, iface, addr, b) + Over(Excess(a, iface), b[RestLen(proto, a, iface, addr)..])
    decreases Count(a)
  {
    hide AttrsOver, RestOver, Carried, NameLen, AddrOver, Bytes32, Over, Excess;
    if a.ifIndex || a.ipAddr {
      var s, left: Attrs;
      if a.ifIndex {
        s, left := Bytes32(iface.value.index), a.(ifIndex := false);
      } else {
        s, left := AddrOver(proto, addr.value.ip, b), a.(ipAddr := false);
      }
      FirstAttr(proto, a, iface, addr, b, s, left);
      AttrsSplit(proto, left, iface, addr, b[|s|..]);
      SameExcess(a, left, iface);
      assert b[|s|..][RestLen(proto, left, iface, addr)..] == b[RestLen(proto, a, iface, addr)..];
      Joined(s, RestOver(proto, left, iface, addr, b[|s|..]),
             Over(Excess(a, iface), b[RestLen(proto, a, iface, addr)..]));
    } else if a.name {
      NameSplit(proto, a, iface, addr, b);
    } else {
      LastAttr(proto, a, iface, addr, b);
    }
  }

  lemma SameExcess(a: Attrs, left: Attrs, iface: Option<Interface>)
    requires (a.name ==> iface.Some?) && a.name == left.name && a.mtu == left.mtu
    ensures Excess(a, iface) == Excess(left, iface)
  {
  }

  lemma LastAttr(proto: Proto, a: Attrs, iface: Option<Interface>, addr: Option<Addr>, b: Bytes)
    requires Present(proto, a, iface, addr) && RestLen(proto, a, iface, addr) <= |b|
    requires !a.ifIndex && !a.ipAddr && !a.name
    ensures AttrsOver(proto, a, iface, addr, b) ==
      RestOver(proto, a, iface, addr, b) + Over(Excess(a, iface), b[RestLen(proto, a, iface, addr)..])
  {
    hide Bytes32;
    var t := b[RestLen(proto, a, iface, addr)..];
    assert Over([], t) == t;
  }

  lemma NameSplit(proto: Proto, a: Attrs, iface: Option<Interface>, addr: Option<Addr>, b: Bytes)
    requires Present(proto, a, iface, addr) && RestLen(proto, a, iface, addr) <= |b|
    requires !a.ifIndex && !a.ipAddr && a.name
    ensures AttrsOver(proto, a, iface, addr, b) ==
      RestOver(proto, a, iface, addr, b) + Over(Excess(a, iface), b[RestLen(proto, a, iface, addr)..])
  {
    hide NameLen, NameOver, NameField, Bytes32, Over, AttrsOver, RestOver, RestLen, Behind;
    var name, l := iface.value.name, NameLen(iface.value.name);
    NameSteps(proto, a, iface, addr, b);
    NameSplits(name, b);
    if a.mtu {
      OverTail(Behind(63, name), b[l..]);
      assert b[l..][4..] == b[l + 4..];
      Joined(NameField(name, b), Bytes32(iface.value.mtu), Over(Excess(a, iface), b[l + 4..]));
    } else {
      assert NameField(name, b) + [] == NameField(name, b);
    }
  }

  lemma NameSteps(proto: Proto, a: Attrs, iface: Option<Interface>, addr: Option<Addr>, b: Bytes)
    requires Present(proto, a, iface, addr) && RestLen(proto, a, iface, addr) <= |b|
    requires !a.ifIndex && !a.ipAddr && a.name
    ensures var name, l, u := iface.value.name, NameLen(iface.value.name), NameOver(iface.value.name, b);
      && l + (if a.mtu then 4 else 0) == RestLen(proto, a, iface, addr)
      && AttrsOver(proto, a, iface, addr, b) ==
        u[..l] + (if a.mtu then Bytes32(iface.value.mtu) + u[l..][4..] else u[l..])
      && RestOver(proto, a, iface, addr, b) ==
        NameField(name, b) + if a.mtu then Bytes32(iface.value.mtu) else []
  {
    hide NameLen, NameOver, NameField, Bytes32;
  }

  lemma OverTail(s: Bytes, b: Bytes)
    requires 4 <= |b|
    ensures Over(s, b)[4..] == Over(Behind(4, s), b[4..])
  {
  }

  // ----- whole objects -----

  /** The bytes of an object. */
  function ObjectBytes(proto: Proto, x: Extension, b: Bytes): (r: Bytes)
    requires Len(proto, x) <= |b|
    ensures |r| == Len(proto, x)
  {
    if x.MPLS? then Wire(proto, x)
    else
      InfoPresent(proto, x);
      ObjectHead(proto, x) + RestOver(proto, AttrsOf(proto, x.iface, x.addr), x.iface, x.addr, b[4..])
  }

  /** What is written behind an object. */
  function ObjectExcess(proto: Proto, x: Extension): (r: Bytes)
    ensures NameFits(x) ==> r == []
  {
    if x.MPLS? then [] else Excess(AttrsOf(proto, x.iface, x.addr), x.iface)
  }

  /** An object is written to its place and changes what is behind it only where its name is too long. */
  lemma ObjectSplit(proto: Proto, x: Extension, b: Bytes)
    requires Len(proto, x) <= |b|
    ensures ObjectOver(proto, x, b) == ObjectBytes(proto, x, b) + Over(ObjectExcess(proto, x), b[Len(proto, x)..])
  {
    hide AttrsOver, RestOver, Excess, Wire, ObjectHead, Present, RestLen;
    if x.Info? {
      var a := AttrsOf(proto, x.iface, x.addr);
      InfoPresent(proto, x);
      AttrsSplit(proto, a, x.iface, x.addr, b[4..]);
      assert b[4..][RestLen(proto, a, x.iface, x.addr)..] == b[Len(proto, x)..];
      Joined(ObjectHead(proto, x), RestOver(proto, a, x.iface, x.addr, b[4..]),
             Over(Excess(a, x.iface), b[Len(proto, x)..]));
    } else {
      assert Over([], b[Len(proto, x)..]) == b[Len(proto, x)..];
    }
  }

  ghost predicate Blank(b: Bytes, n: nat) {
    n <= |b| && forall k :: 0 <= k < n ==> b[k] == 0
  }

  lemma BlankAddr(proto: Proto, ip: Bytes, b: Bytes)
    requires Blank(b, 4 + |Carried(proto, ip)|)
    ensures AddrOver(proto, ip, b) == AddrWire(proto, ip)
  {
    assert b[2..4] == [0, 0];
  }

  lemma BlankName(name: Bytes, b: Bytes)
    requires name != [] && Blank(b, NameLen(name))
    ensures NameField(name, b) == NameWire(name)
  {
    var cut := Cut(name);
    assert b[1 + |cut|..NameLen(name)] == Zeros(NameLen(name) - 1 - |cut|);
    Joined([NameLen(name)], cut, Zeros(NameLen(name) - 1 - |cut|));
  }

  /** Over zeros the attributes are as they are on the wire. */
  lemma {:induction false} BlankRest(proto: Proto, a: Attrs, iface: Option<Interface>, addr: Option<Addr>, b: Bytes)
    requires Present(proto, a, iface, addr) && Blank(b, RestLen(proto, a, iface, addr))
    ensures RestOver(proto, a, iface, addr, b) ==
      IndexPart(a, iface) + (AddrPart(a, proto, addr) + (NamePart(a, iface) + MTUPart(a, iface)))
    decreases Count(a)
  {
    hide RestOver, Carried, NameLen, AddrOver, NameField, Bytes32, AddrWire, NameWire;
    if a.ifIndex {
      var left := a.(ifIndex := false);
      FirstAttr(proto, a, iface, addr, b, Bytes32(iface.value.index), left);
      BlankRest(proto, left, iface, addr, b[4..]);
      assert IndexPart(left, iface) == [];
    } else if a.ipAddr {
      var left := a.(ipAddr := false);
      var s := AddrOver(proto, addr.value.ip, b);
      FirstAttr(proto, a, iface, addr, b, s, left);
      BlankRest(proto, left, iface, addr, b[|s|..]);
      BlankAddr(proto, addr.value.ip, b);
    } else {
      LastRest(proto, a, iface, addr, b);
    }
  }

  lemma OnlyMTU(proto: Proto, a: Attrs, iface: Option<Interface>, addr: Option<Addr>, b: Bytes)
    requires Present(proto, a, iface, addr) && RestLen(proto, a, iface, addr) <= |b|
    requires !a.ifIndex && !a.ipAddr && !a.name
    ensures RestOver(proto, a, iface, addr, b) == if a.mtu then Bytes32(iface.value.mtu) else []
  {
    hide Bytes32;
  }

  lemma LastRest(proto: Proto, a: Attrs, iface: Option<Interface>, addr: Option<Addr>, b: Bytes)
    requires Present(proto, a, iface, addr) && Blank(b, RestLen(proto, a, iface, addr)) && !a.ifIndex && !a.ipAddr
    ensures RestOver(proto, a, iface, addr, b) == NamePart(a, iface) + MTUPart(a, iface)
  {
    hide NameLen, NameField, Bytes32, NameWire, RestOver;
    if a.name {
      NameSteps(proto, a, iface, addr, b);
      BlankName(iface.value.name, b);
    } else {
      OnlyMTU(proto, a, iface, addr, b);
    }
  }

  lemma BlankObject(proto: Proto, x: Extension, b: Bytes)
    requires Blank(b, Len(proto, x))
    ensures ObjectBytes(proto, x, b) == Wire(proto, x)
  {
    hide RestOver, Present, RestLen, IndexPart, AddrPart, NamePart, MTUPart;
    if x.Info? {
      InfoPresent(proto, x);
      BlankRest(proto, AttrsOf(proto, x.iface, x.addr), x.iface, x.addr, b[4..]);
    }
  }
}
