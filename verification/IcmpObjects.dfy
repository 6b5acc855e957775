/** The extension objects of icmp/mpls.go and icmp/interface.go, in memory and on the wire. */
module IcmpObjects {
  import opened Options
  import opened Utf8

  datatype Proto = ICMPv4 | ICMPv6

  datatype Label = Label(number: int, tc: int, s: bool, ttl: int)

  datatype Interface = Interface(index: int, mtu: int, name: Bytes)

  datatype Addr = Addr(ip: Bytes, zone: Bytes)

  datatype Extension =
    | MPLS(classNum: int, typ: int, labels: seq<Label>)
    | Info(classNum: int, typ: int, iface: Option<Interface>, addr: Option<Addr>)

  datatype Error = MessageTooShort | InvalidExtension | NoExtension

  datatype Result<T> = Ok(value: T) | Err(error: Error)

  /** The low byte of an integer. */
  function Low(x: int): Byte {
    x % 256
  }

  function Bytes16(x: int): (b: Bytes)
    ensures |b| == 2
  {
    [Low(x / 256), Low(x)]
  }

  function Bytes32(x: int): (b: Bytes)
    ensures |b| == 4
  {
    [Low(x / 0x100_0000), Low(x / 0x1_0000), Low(x / 256), Low(x)]
  }

  function Int16(b: Bytes): nat
    requires |b| >= 2
  {
    256 * (b[0] as int) + b[1]
  }

  function Int32(b: Bytes): nat
    requires |b| >= 4
  {
    0x100_0000 * (b[0] as int) + 0x1_0000 * (b[1] as int) + 256 * (b[2] as int) + b[3]
  }

  lemma Int16Back(x: int, rest: Bytes)
    ensures Int16(Bytes16(x) + rest) == x % 0x1_0000
  {
    var q := x / 256;
    assert x == 256 * q + x % 256 && q == 256 * (q / 256) + q % 256;
  }

  lemma Quotient16(x: int)
    ensures x / 0x1_0000 == x / 256 / 256
  {
  }

  lemma Quotient24(x: int)
    ensures x / 0x100_0000 == x / 0x1_0000 / 256
  {
  }

  lemma Remainder32(x: int, top: int, low: int)
    requires x == 0x1_0000_0000 * top + low && 0 <= low < 0x1_0000_0000
    ensures x % 0x1_0000_0000 == low
  {
  }

  lemma Int32Back(x: int, rest: Bytes)
    ensures Int32(Bytes32(x) + rest) == x % 0x1_0000_0000
  {
    var q := x / 256;
    var r := q / 256;
    var t := r / 256;
    Quotient16(x);
    Quotient24(x);
    Remainder32(x, t / 256, 0x100_0000 * (t % 256) + 0x1_0000 * (r % 256) + 256 * (q % 256) + x % 256);
  }

  function Zeros(n: nat): (z: Bytes)
    ensures |z| == n && forall k :: 0 <= k < n ==> z[k] == 0
  {
    if n == 0 then [] else [0] + Zeros(n - 1)
  }

  // ----- MPLS label stacks -----

  function LabelWire(l: Label): (b: Bytes)
    ensures |b| == 4
  {
    [Low(l.number / 4096), Low(l.number / 16), 16 * (l.number % 16) + 2 * (l.tc % 8) + (if l.s then 1 else 0),
     Low(l.ttl)]
  }

  function LabelsWire(ls: seq<Label>): (b: Bytes)
    ensures |b| == 4 * |ls|
  {
    if ls == [] then [] else LabelWire(ls[0]) + LabelsWire(ls[1..])
  }

  function LabelAt(b: Bytes): Label
    requires |b| >= 4
  {
    Label(4096 * (b[0] as int) + 16 * (b[1] as int) + b[2] / 16, b[2] % 16 / 2, b[2] % 2 == 1, b[3])
  }

  function LabelsAt(b: Bytes): seq<Label> {
    if |b| < 4 then [] else [LabelAt(b)] + LabelsAt(b[4..])
  }

  /** What of a label fits into its fields. */
  function FittedLabel(l: Label): Label {
    Label(l.number % 0x10_0000, l.tc % 8, l.s, l.ttl % 256)
  }

  lemma Remainder(x: int, top: int, low: int)
    requires x == 0x10_0000 * top + low && 0 <= low < 0x10_0000
    ensures x % 0x10_0000 == low
  {
  }

  lemma Quotient(x: int)
    ensures x / 4096 == x / 16 / 256
  {
  }

  lemma NumberBack(x: int)
    ensures 4096 * (x / 4096 % 256) + 16 * (x / 16 % 256) + x % 16 == x % 0x10_0000
  {
    var q := x / 16;
    var r := q / 256;
    Quotient(x);
    Remainder(x, r / 256, 4096 * (r % 256) + 16 * (q % 256) + x % 16);
  }

  lemma ThirdByte(a: nat, t: nat, s: nat)
    requires a < 16 && t < 8 && s < 2
    ensures var b := 16 * a + 2 * t + s; b / 16 == a && b % 16 / 2 == t && b % 2 == s
  {
  }

  lemma LabelBack(l: Label, rest: Bytes)
    ensures LabelAt(LabelWire(l) + rest) == FittedLabel(l)
  {
    NumberBack(l.number);
    ThirdByte(l.number % 16, l.tc % 8, if l.s then 1 else 0);
  }

  function FittedLabels(ls: seq<Label>): (r: seq<Label>)
    ensures |r| == |ls| && forall k :: 0 <= k < |ls| ==> r[k] == FittedLabel(ls[k])
  {
    if ls == [] then [] else [FittedLabel(ls[0])] + FittedLabels(ls[1..])
  }

  lemma {:induction false} LabelsBack(ls: seq<Label>)
    ensures LabelsAt(LabelsWire(ls)) == FittedLabels(ls)
  {
    if ls != [] {
      var rest := LabelsWire(ls[1..]);
      LabelBack(ls[0], rest);
      assert (LabelWire(ls[0]) + rest)[4..] == rest;
      LabelsBack(ls[1..]);
    }
  }

  // ----- interface information -----

  /** The attributes that an object carries, in the low four bits of its type. */
  datatype Attrs = Attrs(ifIndex: bool, ipAddr: bool, name: bool, mtu: bool)

  const NO_ATTRS := Attrs(false, false, false, false)

  function AttrsIn(typ: int): Attrs {
    Attrs(typ / 8 % 2 == 1, typ / 4 % 2 == 1, typ / 2 % 2 == 1, typ % 2 == 1)
  }

  const V4_IN_V6: Bytes := [0, 0, 0, 0, 0, 0, 0, 0, 0, 0, 0xFF, 0xFF]

  /** To4 and To16 of a net.IP; nil is []. */
  function To4(ip: Bytes): (r: Bytes)
    ensures r == [] || |r| == 4
  {
    if |ip| == 4 then ip else if |ip| == 16 && ip[..12] == V4_IN_V6 then ip[12..] else []
  }

  function To16(ip: Bytes): (r: Bytes)
    ensures r == [] || |r| == 16
  {
    if |ip| == 4 then V4_IN_V6 + ip else if |ip| == 16 then ip else []
  }

  /** The address as a message of this protocol carries it, or nil if it does not. */
  function Carried(proto: Proto, ip: Bytes): (r: Bytes)
    ensures r == [] || |r| == if proto.ICMPv4? then 4 else 16
  {
    if proto.ICMPv4? then To4(ip) else if To4(ip) == [] then To16(ip) else []
  }

  function NameLen(name: Bytes): (l: nat)
    ensures 4 <= l <= 64 && l % 4 == 0 && (name != [] && |name| <= 63 ==> |name| < l)
  {
    if |name| > 63 then 64 else (|name| + 4) / 4 * 4
  }

  function AttrsOf(proto: Proto, iface: Option<Interface>, addr: Option<Addr>): Attrs {
    var indexed := iface.Some? && iface.value.index > 0;
    Attrs(indexed,
          addr.Some? && Carried(proto, addr.value.ip) != [],
          indexed && iface.value.name != [],
          indexed && iface.value.mtu > 0)
  }

  /** The second result of attrsAndLen. */
  function InfoLen(proto: Proto, iface: Option<Interface>, addr: Option<Addr>): (l: nat)
    ensures 4 <= l <= 96
  {
    var a := AttrsOf(proto, iface, addr);
    4 + (if a.ifIndex then 4 else 0) + (if a.name then NameLen(iface.value.name) else 0) + (if a.mtu then 4 else 0)
      + (if a.ipAddr then 4 + |Carried(proto, addr.value.ip)| else 0)
  }

  function Len(proto: Proto, x: Extension): (l: nat)
    ensures l >= 4
  {
    match x
    case MPLS(_, _, labels) => 4 + 4 * |labels|
    case Info(_, _, iface, addr) => InfoLen(proto, iface, addr)
  }

  function AddrWire(proto: Proto, ip: Bytes): Bytes {
    Bytes16(if proto.ICMPv4? then 1 else 2) + [0, 0] + Carried(proto, ip)
  }

  /** What of a name fits into its field. */
  function Cut(name: Bytes): (r: Bytes)
    ensures |r| <= 63 && (|name| <= 63 ==> r == name)
  {
    if |name| > 63 then name[..63] else name
  }

  function NameWire(name: Bytes): (b: Bytes)
    requires name != []
    ensures |b| == NameLen(name)
  {
    [NameLen(name)] + Cut(name) + Zeros(NameLen(name) - 1 - |Cut(name)|)
  }

  /** The name is not written beyond its field. */
  predicate NameFits(x: Extension) {
    x.Info? && x.iface.Some? && x.iface.value.index > 0 ==> |x.iface.value.name| <= 63
  }

  function IndexPart(a: Attrs, iface: Option<Interface>): Bytes
    requires a.ifIndex ==> iface.Some?
  {
    if a.ifIndex then Bytes32(iface.value.index) else []
  }

  function AddrPart(a: Attrs, proto: Proto, addr: Option<Addr>): Bytes
    requires a.ipAddr ==> addr.Some?
  {
    if a.ipAddr then AddrWire(proto, addr.value.ip) else []
  }

  function NamePart(a: Attrs, iface: Option<Interface>): Bytes
    requires a.name ==> iface.Some? && iface.value.name != []
  {
    if a.name then NameWire(iface.value.name) else []
  }

  function MTUPart(a: Attrs, iface: Option<Interface>): Bytes
    requires a.mtu ==> iface.Some?
  {
    if a.mtu then Bytes32(iface.value.mtu) else []
  }

  /** The bytes of an object. */
  function Wire(proto: Proto, x: Extension): (b: Bytes)
    ensures |b| == Len(proto, x)
  {
    match x
    case MPLS(_, _, labels) => Bytes16(Len(proto, x)) + [1, 1] + LabelsWire(labels)
    case Info(_, typ, iface, addr) =>
      var a := AttrsOf(proto, iface, addr);
      Bytes16(Len(proto, x)) + [2, Low(typ)]
        + (IndexPart(a, iface) + (AddrPart(a, proto, addr) + (NamePart(a, iface) + MTUPart(a, iface))))
  }

  // ----- parsing -----

  function TrimLeft(s: Bytes): Bytes {
    if s != [] && s[0] == 0 then TrimLeft(s[1..]) else s
  }

  function TrimRight(s: Bytes): Bytes {
    if s != [] && s[|s| - 1] == 0 then TrimRight(s[..|s| - 1]) else s
  }

  /** parseName: the name, its padding trimmed off, and how much it takes. */
  function NameAt(b: Bytes): Result<(Bytes, nat)> {
    if |b| < 4 || |b| < b[0] then Err(MessageTooShort)
    else if b[0] % 4 != 0 || b[0] < 4 || b[0] > 64 then Err(InvalidExtension)
    else Ok((TrimLeft(TrimRight(b[1..b[0]] + Zeros(64 - b[0]))), b[0]))
  }

  /** parseIPAddr: the address, nil for an unknown family, and how much it takes. */
  function AddrAt(b: Bytes): Result<(Bytes, nat)> {
    if |b| < 4 then Err(MessageTooShort)
    else
      var afi := Int16(b);
      var l := if afi == 1 then 4 else if afi == 2 then 16 else 0;
      if |b| < 4 + l then Err(MessageTooShort) else Ok((b[4..4 + l], 4 + l))
  }

  /** What the loop of parseInterfaceInfo has found so far. */
  datatype Found = Found(iface: Option<Interface>, addr: Option<Addr>)

  /** The loop of parseInterfaceInfo. */
  function ParseAttrs(b: Bytes, a: Attrs, x: Found): Result<Found>
    requires a.ifIndex || a.name || a.mtu ==> x.iface.Some?
    requires a.ipAddr ==> x.addr.Some?
    decreases if a.ifIndex then 1 else 0, if a.ipAddr then 1 else 0, if a.name then 1 else 0, if a.mtu then 1 else 0
  {
    if b == [] || a == NO_ATTRS then Ok(x)
    else if a.ifIndex then
      if |b| < 4 then Err(MessageTooShort)
      else ParseAttrs(b[4..], a.(ifIndex := false), x.(iface := Some(x.iface.value.(index := Int32(b)))))
    else if a.ipAddr then
      match AddrAt(b)
      case Err(e) => Err(e)
      case Ok((ip, l)) =>
        ParseAttrs(b[l..], a.(ipAddr := false), if l == 4 then x else x.(addr := Some(x.addr.value.(ip := ip))))
    else if a.name then
      match NameAt(b)
      case Err(e) => Err(e)
      case Ok((name, l)) =>
        ParseAttrs(b[l..], a.(name := false), x.(iface := Some(x.iface.value.(name := name))))
    else if |b| < 4 then Err(MessageTooShort)
    else ParseAttrs(b[4..], a.(mtu := false), x.(iface := Some(x.iface.value.(mtu := Int32(b)))))
  }

  /** The zone of an IPv6 address is the interface's name. */
  function Zoned(x: Found): Found {
    if x.iface.Some? && x.iface.value.name != []
       && x.addr.Some? && To16(x.addr.value.ip) != [] && To4(x.addr.value.ip) == []
    then x.(addr := Some(x.addr.value.(zone := x.iface.value.name)))
    else x
  }

  /** parseInterfaceInfo. */
  function InfoAt(b: Bytes): Result<Extension>
    requires |b| >= 4
  {
    var a := AttrsIn(b[3]);
    var x := Found(if a.ifIndex || a.name || a.mtu then Some(Interface(0, 0, [])) else None,
                   if a.ipAddr then Some(Addr([], [])) else None);
    match ParseAttrs(b[4..], a, x)
    case Err(e) => Err(e)
    case Ok(y) => Ok(Info(b[2], b[3], Zoned(y).iface, Zoned(y).addr))
  }

  /** parseMPLSLabelStack. */
  function MPLSAt(b: Bytes): Extension
    requires |b| >= 4
  {
    MPLS(b[2], b[3], LabelsAt(b[4..]))
  }

  const CLASS_MPLS := 1
  const CLASS_INFO := 2

  /** What parseExtensions makes of an object; one of another class is skipped later. */
  function ObjectAt(b: Bytes): Result<Extension>
    requires |b| >= 4
  {
    if b[2] == CLASS_INFO then InfoAt(b) else Ok(MPLSAt(b))
  }
}
