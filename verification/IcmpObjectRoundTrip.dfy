/** What parsing makes of a marshaled extension object. */
module IcmpObjectRoundTrip {
  import opened Options
  import opened Utf8
  import opened IcmpObjects
  import opened IcmpOverwrite

  // ----- names -----

  lemma {:induction false} ZerosConcat(m: nat, n: nat)
    ensures Zeros(m) + Zeros(n) == Zeros(m + n)
  {
    assert forall k :: 0 <= k < m + n ==> (Zeros(m) + Zeros(n))[k] == 0;
  }

  lemma {:induction false} TrimPadding(s: Bytes, n: nat)
    ensures TrimRight(s + Zeros(n)) == TrimRight(s)
  {
    if n == 0 {
      assert s + Zeros(0) == s;
    } else {
      var t := s + Zeros(n);
      ZerosConcat(n - 1, 1);
      assert t[..|t| - 1] == s + Zeros(n - 1);
      TrimPadding(s, n - 1);
    }
  }

  function Trimmed(s: Bytes): Bytes {
    TrimLeft(TrimRight(s))
  }

  predicate NoNulAtEnds(s: Bytes) {
    s == [] || (s[0] != 0 && s[|s| - 1] != 0)
  }

  lemma {:induction false} TrimLeftShrinks(s: Bytes)
    ensures |TrimLeft(s)| <= |s|
  {
    if s != [] && s[0] == 0 {
      TrimLeftShrinks(s[1..]);
    }
  }

  lemma {:induction false} TrimRightShrinks(s: Bytes)
    ensures |TrimRight(s)| <= |s|
  {
    if s != [] && s[|s| - 1] == 0 {
      TrimRightShrinks(s[..|s| - 1]);
    }
  }

  /** Trimming leaves a name alone exactly if it has no NUL at either end. */
  lemma TrimmedIsSame(s: Bytes)
    ensures Trimmed(s) == s <==> NoNulAtEnds(s)
  {
    if s != [] {
      TrimLeftShrinks(TrimRight(s));
      if s[|s| - 1] == 0 {
        TrimRightShrinks(s[..|s| - 1]);
      } else if s[0] == 0 {
        TrimLeftShrinks(s[1..]);
      }
    }
  }

  /** A name comes back with what was in its field behind it, cut to the field and without NULs at its ends. */
  lemma NameBack(name: Bytes, b: Bytes, rest: Bytes)
    requires NameLen(name) <= |b|
    ensures NameAt(NameField(name, b) + rest) == Ok((Trimmed(Cut(name) + BehindName(name, b)), NameLen(name)))
  {
    hide TrimLeft, TrimRight;
    var l, all := NameLen(name), NameField(name, b) + rest;
    var s := Cut(name) + BehindName(name, b);
    assert all[1..l] == s;
    TrimPadding(s, 64 - l);
  }

  /** Over zeros nothing is behind it. */
  lemma BlankPadding(name: Bytes, n: nat)
    ensures Trimmed(Cut(name) + Zeros(n)) == Trimmed(Cut(name) + [])
  {
    hide TrimLeft, TrimRight;
    TrimPadding(Cut(name), n);
    assert Cut(name) + [] == Cut(name);
  }

  /** An address comes back, whatever its reserved bytes. */
  lemma AddrBack(proto: Proto, ip: Bytes, b: Bytes, rest: Bytes)
    requires Carried(proto, ip) != [] && 4 + |Carried(proto, ip)| <= |b|
    ensures AddrAt(AddrOver(proto, ip, b) + rest) == Ok((Carried(proto, ip), 4 + |Carried(proto, ip)|))
  {
    hide Carried;
    var all := AddrOver(proto, ip, b) + rest;
    Int16Back(if proto.ICMPv4? then 1 else 2, b[2..4] + Carried(proto, ip) + rest);
    assert all == Bytes16(if proto.ICMPv4? then 1 else 2) + (b[2..4] + Carried(proto, ip) + rest);
    assert all[4..4 + |Carried(proto, ip)|] == Carried(proto, ip);
  }

  // ----- one attribute after the other -----

  lemma IndexStage(a: Attrs, v: int, x: Found, rest: Bytes)
    requires a.ifIndex && x.iface.Some? && (a.ipAddr ==> x.addr.Some?)
    ensures ParseAttrs(Bytes32(v) + rest, a, x) ==
      ParseAttrs(rest, a.(ifIndex := false), x.(iface := Some(x.iface.value.(index := v % 0x1_0000_0000))))
  {
    Int32Back(v, rest);
    assert (Bytes32(v) + rest)[4..] == rest;
  }

  lemma AddrStage(a: Attrs, proto: Proto, ip: Bytes, b: Bytes, x: Found, rest: Bytes)
    requires a.ipAddr && Carried(proto, ip) != [] && x.addr.Some? && 4 + |Carried(proto, ip)| <= |b|
    requires !a.ifIndex && (a.name || a.mtu ==> x.iface.Some?)
    ensures ParseAttrs(AddrOver(proto, ip, b) + rest, a, x) ==
      ParseAttrs(rest, a.(ipAddr := false), x.(addr := Some(x.addr.value.(ip := Carried(proto, ip)))))
  {
    hide Carried, AddrOver;
    AddrBack(proto, ip, b, rest);
    assert (AddrOver(proto, ip, b) + rest)[4 + |Carried(proto, ip)|..] == rest;
  }

  lemma NameStage(a: Attrs, name: Bytes, b: Bytes, x: Found, rest: Bytes)
    requires a.name && NameLen(name) <= |b| && !a.ifIndex && !a.ipAddr && x.iface.Some?
    ensures ParseAttrs(NameField(name, b) + rest, a, x) ==
      ParseAttrs(rest, a.(name := false),
                 x.(iface := Some(x.iface.value.(name := Trimmed(Cut(name) + BehindName(name, b))))))
  {
    hide Trimmed, NameAt, NameField, Cut, BehindName;
    NameBack(name, b, rest);
    assert (NameField(name, b) + rest)[NameLen(name)..] == rest;
  }

  lemma MTUStage(a: Attrs, v: int, x: Found)
    requires a.mtu && x.iface.Some? && !a.ifIndex && !a.ipAddr && !a.name
    ensures ParseAttrs(Bytes32(v), a, x) == Ok(x.(iface := Some(x.iface.value.(mtu := v % 0x1_0000_0000))))
  {
    Int32Back(v, []);
    assert Bytes32(v) + [] == Bytes32(v);
  }

  // ----- what the type says -----

  /** Of the attributes that a type names all that are carried are among them, and where one is missing no other comes
      behind it. */
  predicate Covers(a: Attrs, c: Attrs) {
    && (c.ifIndex ==> a.ifIndex) && (c.ipAddr ==> a.ipAddr) && (c.name ==> a.name) && (c.mtu ==> a.mtu)
    && (a.ifIndex && !c.ifIndex ==> !c.ipAddr && !c.name && !c.mtu)
    && (a.ipAddr && !c.ipAddr ==> !c.name && !c.mtu)
    && (a.name && !c.name ==> !c.mtu)
  }

  predicate TypeFits(proto: Proto, x: Extension) {
    x.Info? ==> Covers(AttrsIn(Low(x.typ)), AttrsOf(proto, x.iface, x.addr))
  }

  /** What is behind a name in its field. */
  function Padding(proto: Proto, a: Attrs, iface: Option<Interface>, addr: Option<Addr>, b: Bytes): Bytes
    requires Present(proto, a, iface, addr) && RestLen(proto, a, iface, addr) <= |b|
    decreases Count(a)
  {
    if a.ifIndex then Padding(proto, a.(ifIndex := false), iface, addr, b[4..])
    else if a.ipAddr then
      Padding(proto, a.(ipAddr := false), iface, addr, b[4 + |Carried(proto, addr.value.ip)|..])
    else if a.name then BehindName(iface.value.name, b)
    else []
  }

  /** What the attributes that are carried add to what there is. */
  function Taken(proto: Proto, c: Attrs, iface: Option<Interface>, addr: Option<Addr>, pad: Bytes, x: Found): Found
    requires Present(proto, c, iface, addr) && (c.ipAddr ==> x.addr.Some?)
  {
    Found(if x.iface.None? then None
          else Some(Interface(if c.ifIndex then iface.value.index % 0x1_0000_0000 else x.iface.value.index,
                              if c.mtu then iface.value.mtu % 0x1_0000_0000 else x.iface.value.mtu,
                              if c.name then Trimmed(Cut(iface.value.name) + pad) else x.iface.value.name)),
          if c.ipAddr then Some(x.addr.value.(ip := Carried(proto, addr.value.ip))) else x.addr)
  }

  lemma {:induction false} AttrsBack(proto: Proto, a: Attrs, c: Attrs, iface: Option<Interface>, addr: Option<Addr>,
                                     b: Bytes, x: Found)
    requires Present(proto, c, iface, addr) && RestLen(proto, c, iface, addr) <= |b| && Covers(a, c)
    requires (a.ifIndex || a.name || a.mtu ==> x.iface.Some?) && (a.ipAddr ==> x.addr.Some?)
    ensures ParseAttrs(RestOver(proto, c, iface, addr, b), a, x)
         == Ok(Taken(proto, c, iface, addr, Padding(proto, c, iface, addr, b), x))
    decreases Count(c)
  {
    hide ParseAttrs, RestOver, Carried, NameLen, AddrOver, NameField, Bytes32, Trimmed, Cut;
    if c.ifIndex {
      var c1, v := c.(ifIndex := false), iface.value.index;
      var x1 := x.(iface := Some(x.iface.value.(index := v % 0x1_0000_0000)));
      FirstAttr(proto, c, iface, addr, b, Bytes32(v), c1);
      IndexStage(a, v, x, RestOver(proto, c1, iface, addr, b[4..]));
      AttrsBack(proto, a.(ifIndex := false), c1, iface, addr, b[4..], x1);
    } else if c.ipAddr {
      var c1, ip := c.(ipAddr := false), addr.value.ip;
      var s := AddrOver(proto, ip, b);
      var x1 := x.(addr := Some(x.addr.value.(ip := Carried(proto, ip))));
      FirstAttr(proto, c, iface, addr, b, s, c1);
      AddrStage(a, proto, ip, b, x, RestOver(proto, c1, iface, addr, b[|s|..]));
      AttrsBack(proto, a.(ipAddr := false), c1, iface, addr, b[|s|..], x1);
    } else {
      LastBack(proto, a, c, iface, addr, b, x);
    }
  }

  lemma LastBack(proto: Proto, a: Attrs, c: Attrs, iface: Option<Interface>, addr: Option<Addr>, b: Bytes, x: Found)
    requires Present(proto, c, iface, addr) && RestLen(proto, c, iface, addr) <= |b| && Covers(a, c)
    requires (a.ifIndex || a.name || a.mtu ==> x.iface.Some?) && (a.ipAddr ==> x.addr.Some?)
    requires !c.ifIndex && !c.ipAddr
    ensures ParseAttrs(RestOver(proto, c, iface, addr, b), a, x)
         == Ok(Taken(proto, c, iface, addr, Padding(proto, c, iface, addr, b), x))
  {
    hide ParseAttrs, RestOver, NameLen, NameField, Bytes32, Trimmed, Cut, BehindName;
    var rest := if c.mtu then Bytes32(iface.value.mtu) else [];
    if c.name {
      var name := iface.value.name;
      NameSteps(proto, c, iface, addr, b);
      NameStage(a, name, b, x, rest);
      MTUBack(a.(name := false), c.mtu, iface,
              x.(iface := Some(x.iface.value.(name := Trimmed(Cut(name) + BehindName(name, b))))));
    } else {
      OnlyMTU(proto, c, iface, addr, b);
      MTUBack(a, c.mtu, iface, x);
    }
  }

  lemma MTUBack(a: Attrs, mtu: bool, iface: Option<Interface>, x: Found)
    requires (mtu ==> iface.Some? && a.mtu && !a.ifIndex && !a.ipAddr && !a.name)
    requires (a.ifIndex || a.name || a.mtu ==> x.iface.Some?) && (a.ipAddr ==> x.addr.Some?)
    ensures ParseAttrs(if mtu then Bytes32(iface.value.mtu) else [], a, x) ==
      Ok(if mtu then x.(iface := Some(x.iface.value.(mtu := iface.value.mtu % 0x1_0000_0000))) else x)
  {
    hide ParseAttrs, Bytes32;
    if mtu {
      MTUStage(a, iface.value.mtu, x);
    } else {
      NothingBack(a, x);
    }
  }

  lemma NothingBack(a: Attrs, x: Found)
    requires (a.ifIndex || a.name || a.mtu ==> x.iface.Some?) && (a.ipAddr ==> x.addr.Some?)
    ensures ParseAttrs([], a, x) == Ok(x)
  {
  }

  // ----- objects -----

  /** What the loop of parseInterfaceInfo starts from. */
  function Empty(a: Attrs): Found {
    Found(if a.ifIndex || a.name || a.mtu then Some(Interface(0, 0, [])) else None,
          if a.ipAddr then Some(Addr([], [])) else None)
  }

  /** What the receiver of an object gets, if pad is behind its name. */
  function Received(proto: Proto, x: Extension, pad: Bytes): Extension
    requires TypeFits(proto, x)
  {
    match x
    case MPLS(_, _, labels) => MPLS(1, 1, FittedLabels(labels))
    case Info(_, typ, iface, addr) =>
      InfoPresent(proto, x);
      var y := Zoned(Taken(proto, AttrsOf(proto, iface, addr), iface, addr, pad, Empty(AttrsIn(Low(typ)))));
      Info(2, typ % 256, y.iface, y.addr)
  }

  function ObjectPadding(proto: Proto, x: Extension, b: Bytes): Bytes
    requires Len(proto, x) <= |b|
  {
    if x.MPLS? then []
    else
      InfoPresent(proto, x);
      Padding(proto, AttrsOf(proto, x.iface, x.addr), x.iface, x.addr, b[4..])
  }

  lemma InfoBack(proto: Proto, x: Extension, b: Bytes)
    requires x.Info? && TypeFits(proto, x) && Len(proto, x) <= |b|
    ensures InfoAt(ObjectBytes(proto, x, b)) == Ok(Received(proto, x, ObjectPadding(proto, x, b)))
  {
    hide Carried, ParseAttrs, RestOver, Padding, Taken, Zoned, Covers, Present, RestLen, AttrsIn;
    var c := AttrsOf(proto, x.iface, x.addr);
    InfoPresent(proto, x);
    InfoStarts(proto, x, b);
    EmptyHas(AttrsIn(Low(x.typ)));
    AttrsBack(proto, AttrsIn(Low(x.typ)), c, x.iface, x.addr, b[4..], Empty(AttrsIn(Low(x.typ))));
  }

  lemma EmptyHas(a: Attrs)
    ensures (a.ifIndex || a.name || a.mtu <==> Empty(a).iface.Some?) && (a.ipAddr <==> Empty(a).addr.Some?)
  {
  }

  /** How parseInterfaceInfo sees an object. */
  lemma InfoStarts(proto: Proto, x: Extension, b: Bytes)
    requires x.Info? && Len(proto, x) <= |b|
    ensures
      var c, w := AttrsOf(proto, x.iface, x.addr), ObjectBytes(proto, x, b);
      && Present(proto, c, x.iface, x.addr) && RestLen(proto, c, x.iface, x.addr) <= |b[4..]|
      && w[2] == 2 && w[3] == Low(x.typ) && w[4..] == RestOver(proto, c, x.iface, x.addr, b[4..])
  {
    hide RestOver, RestLen, Present, AttrsOf, Len;
    InfoPresent(proto, x);
  }

  lemma MPLSBack(proto: Proto, x: Extension)
    requires x.MPLS?
    ensures MPLSAt(Wire(proto, x)) == Received(proto, x, [])
  {
    LabelsBack(x.labels);
    assert Wire(proto, x)[4..] == LabelsWire(x.labels);
  }

  // ----- a type that does not fit -----

  /** What the loop of parseInterfaceInfo leaves as it was: what the type does not name. */
  lemma {:induction false} ParseKeeps(b: Bytes, a: Attrs, x: Found)
    requires a.ifIndex || a.name || a.mtu ==> x.iface.Some?
    requires a.ipAddr ==> x.addr.Some?
    ensures var r := ParseAttrs(b, a, x); r.Ok? ==>
      && r.value.iface.Some? == x.iface.Some? && r.value.addr.Some? == x.addr.Some?
      && (x.iface.Some? ==>
        && (!a.ifIndex ==> r.value.iface.value.index == x.iface.value.index)
        && (!a.name ==> r.value.iface.value.name == x.iface.value.name)
        && (!a.mtu || b == [] ==> r.value.iface.value.mtu == x.iface.value.mtu))
      && (!a.ipAddr ==> r.value.addr == x.addr)
    decreases Count(a)
  {
    hide NameAt, AddrAt;
    if b == [] || a == NO_ATTRS {
    } else if a.ifIndex {
      if |b| >= 4 {
        ParseKeeps(b[4..], a.(ifIndex := false), x.(iface := Some(x.iface.value.(index := Int32(b)))));
      }
    } else if a.ipAddr {
      if AddrAt(b).Ok? {
        var (ip, l) := AddrAt(b).value;
        AddrTakes(b);
        ParseKeeps(b[l..], a.(ipAddr := false), if l == 4 then x else x.(addr := Some(x.addr.value.(ip := ip))));
      }
    } else if a.name {
      if NameAt(b).Ok? {
        var (name, l) := NameAt(b).value;
        NameTakes(b);
        ParseKeeps(b[l..], a.(name := false), x.(iface := Some(x.iface.value.(name := name))));
      }
    } else if |b| >= 4 {
      ParseKeeps(b[4..], a.(mtu := false), x.(iface := Some(x.iface.value.(mtu := Int32(b)))));
    }
  }

  lemma AddrTakes(b: Bytes)
    requires AddrAt(b).Ok?
    ensures 4 <= AddrAt(b).value.1 <= |b|
  {
  }

  lemma NameTakes(b: Bytes)
    requires NameAt(b).Ok?
    ensures 4 <= NameAt(b).value.1 <= |b| && |NameAt(b).value.0| < NameAt(b).value.1
  {
    hide TrimLeft, TrimRight;
    var l, s := b[0] as int, b[1..b[0]];
    TrimPadding(s, 64 - l);
    TrimRightShrinks(s);
    TrimLeftShrinks(TrimRight(s));
  }

  /** An address that is read as an index gives one that is not zero. */
  lemma IndexMissing(proto: Proto, ip: Bytes, b: Bytes, rest: Bytes, a: Attrs, x: Found)
    requires 4 + |Carried(proto, ip)| <= |b| && b[2..4] == [0, 0]
    requires a.ifIndex && x.iface.Some? && (a.ipAddr ==> x.addr.Some?)
    ensures var r := ParseAttrs(AddrOver(proto, ip, b) + rest, a, x); r.Ok? ==>
      r.value.iface.Some? && r.value.iface.value.index > 0
  {
    hide Carried;
    var w := AddrOver(proto, ip, b) + rest;
    assert Int32(w) > 0;
    ParseKeeps(w[4..], a.(ifIndex := false), x.(iface := Some(x.iface.value.(index := Int32(w)))));
  }

  /** An MTU that is read as a name is missing. */
  lemma NameMissing(v: int, a: Attrs, x: Found)
    requires a.name && !a.ifIndex && !a.ipAddr && x.iface.Some?
    ensures var r := ParseAttrs(Bytes32(v), a, x); r.Ok? ==>
      r.value.iface.Some? && r.value.iface.value.mtu == x.iface.value.mtu
  {
    hide NameAt, Bytes32;
    var b := Bytes32(v);
    if NameAt(b).Ok? {
      NameTakes(b);
    }
  }

  /** So is an MTU that is read as an address. */
  lemma AddrMissingMTU(v: int, a: Attrs, x: Found)
    requires a.ipAddr && !a.ifIndex && x.iface.Some? && x.addr.Some?
    ensures var r := ParseAttrs(Bytes32(v), a, x); r.Ok? ==>
      r.value.iface.Some? && r.value.iface.value.mtu == x.iface.value.mtu
  {
    hide AddrAt, Bytes32;
    var b := Bytes32(v);
    if AddrAt(b).Ok? {
      AddrTakes(b);
    }
  }

  /** A name that is read as an address is cut short, or the MTU behind it is missing. */
  lemma AddrMissingName(name: Bytes, b: Bytes, rest: Bytes, a: Attrs, x: Found)
    requires name != [] && NameLen(name) <= |b| && (rest == [] || |rest| == 4)
    requires a.ipAddr && !a.ifIndex && a.name && x.iface.Some? && x.addr.Some? && x.iface.value.name == []
    ensures var r := ParseAttrs(NameField(name, b) + rest, a, x); r.Ok? ==>
      && r.value.iface.Some?
      && (r.value.iface.value.name != name || (rest != [] && r.value.iface.value.mtu == x.iface.value.mtu))
  {
    hide NameAt;
    var all := NameField(name, b) + rest;
    var l := NameLen(name);
    assert all[0] == l && AddrAt(all) == Ok(([], 4)) by {
      assert Int16(all) >= 1024;
      assert all[4..4] == [];
    }
    var q, a1 := all[4..], a.(ipAddr := false);
    if q != [] && NameAt(q).Ok? {
      NameTakes(q);
      var (n, m) := NameAt(q).value;
      var x1 := x.(iface := Some(x.iface.value.(name := n)));
      ParseKeeps(q[m..], a1.(name := false), x1);
      if q[m..] != [] && ParseAttrs(q[m..], a1.(name := false), x1).Ok? && a.mtu {
        assert |q| >= m + 4;
      }
    }
  }

  /** Where the type names an attribute that is missing in front of others, one of these is missing or another one. */
  lemma AfterIndex(proto: Proto, a: Attrs, c: Attrs, iface: Option<Interface>, addr: Option<Addr>, b: Bytes, x: Found)
    requires Present(proto, c, iface, addr) && RestLen(proto, c, iface, addr) <= |b| && !a.ifIndex && !c.ifIndex
    requires (c.ipAddr ==> a.ipAddr) && (c.name ==> a.name) && (c.mtu ==> a.mtu) && !Covers(a, c)
    requires x.iface.Some? && x.iface.value.name == [] && (a.ipAddr ==> x.addr.Some?)
    ensures var r := ParseAttrs(RestOver(proto, c, iface, addr, b), a, x); r.Ok? ==>
      && r.value.iface.Some?
      && ((c.name && r.value.iface.value.name != iface.value.name)
          || (c.mtu && r.value.iface.value.mtu == x.iface.value.mtu))
  {
    hide ParseAttrs, RestOver, Carried, NameLen, AddrOver, NameField, Bytes32;
    if c.ipAddr {
      var c1, ip := c.(ipAddr := false), addr.value.ip;
      var s := AddrOver(proto, ip, b);
      FirstAttr(proto, c, iface, addr, b, s, c1);
      AddrStage(a, proto, ip, b, x, RestOver(proto, c1, iface, addr, b[|s|..]));
      OnlyMTU(proto, c1, iface, addr, b[|s|..]);
      NameMissing(iface.value.mtu, a.(ipAddr := false), x.(addr := Some(x.addr.value.(ip := Carried(proto, ip)))));
    } else if c.name {
      NameSteps(proto, c, iface, addr, b);
      AddrMissingName(iface.value.name, b, if c.mtu then Bytes32(iface.value.mtu) else [], a, x);
    } else {
      OnlyMTU(proto, c, iface, addr, b);
      if a.ipAddr {
        AddrMissingMTU(iface.value.mtu, a, x);
      } else {
        NameMissing(iface.value.mtu, a, x);
      }
    }
  }

  /** The attributes found are not those of an object whose type does not fit. */
  lemma FoundOther(proto: Proto, x: Extension, b: Bytes)
    requires x.Info? && !TypeFits(proto, x) && Blank(b, Len(proto, x))
    ensures
      var a, c := AttrsIn(Low(x.typ)), AttrsOf(proto, x.iface, x.addr);
      && Present(proto, c, x.iface, x.addr) && RestLen(proto, c, x.iface, x.addr) <= |b[4..]|
      && var r := ParseAttrs(RestOver(proto, c, x.iface, x.addr, b[4..]), a, Empty(a)); r.Ok? ==>
        r.value.iface != x.iface || r.value.addr.Some? != x.addr.Some?
  {
    hide ParseAttrs, RestOver, Carried, NameLen, AddrOver, Bytes32, AttrsIn;
    var a, c, iface, addr := AttrsIn(Low(x.typ)), AttrsOf(proto, x.iface, x.addr), x.iface, x.addr;
    InfoPresent(proto, x);
    ParseKeeps(RestOver(proto, c, iface, addr, b[4..]), a, Empty(a));
    if (c.ifIndex ==> a.ifIndex) && (c.ipAddr ==> a.ipAddr) && (c.name ==> a.name) && (c.mtu ==> a.mtu) {
      if c.ifIndex {
        var c1, v := c.(ifIndex := false), iface.value.index;
        FirstAttr(proto, c, iface, addr, b[4..], Bytes32(v), c1);
        IndexStage(a, v, Empty(a), RestOver(proto, c1, iface, addr, b[4..][4..]));
        AfterIndex(proto, a.(ifIndex := false), c1, iface, addr, b[4..][4..],
                   Empty(a).(iface := Some(Interface(v % 0x1_0000_0000, 0, []))));
      } else {
        var c1 := c.(ipAddr := false);
        var s := AddrOver(proto, addr.value.ip, b[4..]);
        FirstAttr(proto, c, iface, addr, b[4..], s, c1);
        assert b[4..][2] == b[6] && b[4..][3] == b[7];
        assert b[4..][2..4] == [0, 0];
        IndexMissing(proto, addr.value.ip, b[4..], RestOver(proto, c1, iface, addr, b[4..][|s|..]), a, Empty(a));
      }
    }
  }

  /** An object whose type does not fit does not come back. */
  lemma Uncovered(proto: Proto, x: Extension, b: Bytes)
    requires x.Info? && !TypeFits(proto, x) && Blank(b, Len(proto, x))
    ensures InfoAt(ObjectBytes(proto, x, b)) != Ok(x)
  {
    hide ParseAttrs, RestOver, Covers, Present, RestLen, AttrsIn, AttrsOf, Len, Carried;
    InfoStarts(proto, x, b);
    EmptyHas(AttrsIn(Low(x.typ)));
    FoundOther(proto, x, b);
  }

  // ----- which objects come back as they were -----

  predicate FitsLabel(l: Label) {
    0 <= l.number < 0x10_0000 && 0 <= l.tc < 8 && 0 <= l.ttl < 256
  }

  /** The length and the fields are in range, the class is the one that is written, the type names what there is, what
      there is is carried, and the name has at most 63 bytes and no NUL at either end. */
  predicate Canonical(proto: Proto, x: Extension) {
    match x
    case MPLS(classNum, typ, labels) =>
      classNum == 1 && typ == 1 && Len(proto, x) < 0x1_0000 && forall k :: 0 <= k < |labels| ==> FitsLabel(labels[k])
    case Info(classNum, typ, iface, addr) =>
      var a := AttrsIn(typ);
      && classNum == 2 && 0 <= typ < 256 && TypeFits(proto, x)
      && (iface.Some? <==> a.ifIndex || a.name || a.mtu) && (addr.Some? <==> a.ipAddr)
      && (iface.Some? ==> InterfaceFits(iface.value)) && (addr.Some? ==> AddrFits(proto, addr.value, iface))
  }

  /** The fields are in range, there is nothing without an index, and the name is as parsing leaves one. */
  predicate InterfaceFits(i: Interface) {
    && 0 <= i.index < 0x1_0000_0000 && 0 <= i.mtu < 0x1_0000_0000 && |i.name| <= 63 && NoNulAtEnds(i.name)
    && (i.index == 0 ==> i.mtu == 0 && i.name == [])
  }

  /** The address is carried as it is, and the zone of an IPv6 address is the interface's name. */
  predicate AddrFits(proto: Proto, addr: Addr, iface: Option<Interface>) {
    && Carried(proto, addr.ip) == addr.ip
    && addr.zone == if proto.ICMPv6? && addr.ip != [] && iface.Some? then iface.value.name else []
  }

  lemma LabelSame(l: Label)
    ensures FittedLabel(l) == l <==> FitsLabel(l)
  {
  }

  /** An object arrives as it was sent exactly if it is canonical. */
  lemma ReceivedIsSame(proto: Proto, x: Extension)
    requires TypeFits(proto, x) && Len(proto, x) < 0x1_0000
    ensures Received(proto, x, []) == x <==> Canonical(proto, x)
  {
    match x
    case MPLS(_, _, labels) =>
      forall k | 0 <= k < |labels| ensures FittedLabels(labels)[k] == labels[k] <==> FitsLabel(labels[k]) {
        LabelSame(labels[k]);
      }
      assert FittedLabels(labels) == labels <==> forall k :: 0 <= k < |labels| ==> FittedLabels(labels)[k] == labels[k];
    case Info(_, _, iface, addr) =>
      InfoIsSame(proto, x);
  }

  /** The interface that is taken is the one that was sent. */
  lemma InterfaceIsSame(proto: Proto, x: Extension)
    requires x.Info? && TypeFits(proto, x)
    ensures var a, c := AttrsIn(Low(x.typ)), AttrsOf(proto, x.iface, x.addr);
      Present(proto, c, x.iface, x.addr) && (c.ipAddr ==> Empty(a).addr.Some?)
      && (Taken(proto, c, x.iface, x.addr, [], Empty(a)).iface == x.iface
        <==> (x.iface.Some? <==> a.ifIndex || a.name || a.mtu) && (x.iface.Some? ==> InterfaceFits(x.iface.value)))
  {
    hide AttrsIn, Trimmed, Cut, Carried, NoNulAtEnds;
    if x.iface.Some? {
      NameIsSame(x.iface.value.name);
      NameIsSame([]);
    }
  }

  lemma NameIsSame(name: Bytes)
    ensures Trimmed(Cut(name) + []) == name <==> |name| <= 63 && NoNulAtEnds(name)
    ensures name == [] ==> NoNulAtEnds(name)
  {
    hide TrimLeft, TrimRight;
    var cut := Cut(name);
    assert cut + [] == cut;
    TrimmedIsSame(cut);
    TrimRightShrinks(cut);
    TrimLeftShrinks(TrimRight(cut));
    assert |Trimmed(cut)| <= 63;
  }

  /** An address is, together with the zone. */
  lemma AddrIsSame(proto: Proto, x: Extension, f: Found)
    requires x.Info? && f.iface == x.iface
    requires var c := AttrsOf(proto, x.iface, x.addr);
      if c.ipAddr then f.addr == Some(Addr(Carried(proto, x.addr.value.ip), []))
      else f.addr.Some? ==> f.addr.value == Addr([], [])
    ensures Zoned(f).iface == f.iface
    ensures Zoned(f).addr == x.addr
      <==> (x.addr.Some? <==> f.addr.Some?) && (x.addr.Some? ==> AddrFits(proto, x.addr.value, x.iface))
  {
  }

  lemma InfoIsSame(proto: Proto, x: Extension)
    requires x.Info? && TypeFits(proto, x)
    ensures Received(proto, x, []) == x <==> Canonical(proto, x)
  {
    hide AttrsIn, Trimmed, Carried, Zoned, AddrFits, InterfaceFits, NameLen;
    var a, c := AttrsIn(Low(x.typ)), AttrsOf(proto, x.iface, x.addr);
    InterfaceIsSame(proto, x);
    var f := Taken(proto, c, x.iface, x.addr, [], Empty(a));
    ZonedInterface(f);
    if f.iface == x.iface {
      AddrIsSame(proto, x, f);
    }
  }

  lemma ZonedInterface(f: Found)
    ensures Zoned(f).iface == f.iface
  {
  }

  lemma {:induction false} NothingPads(proto: Proto, a: Attrs, iface: Option<Interface>, addr: Option<Addr>, b: Bytes)
    requires Present(proto, a, iface, addr) && Blank(b, RestLen(proto, a, iface, addr))
    ensures Padding(proto, a, iface, addr, b) == Zeros(|Padding(proto, a, iface, addr, b)|)
    decreases Count(a)
  {
    hide Carried, NameLen;
    if a.ifIndex {
      NothingPads(proto, a.(ifIndex := false), iface, addr, b[4..]);
    } else if a.ipAddr {
      NothingPads(proto, a.(ipAddr := false), iface, addr, b[4 + |Carried(proto, addr.value.ip)|..]);
    }
  }

  /** Over zeros nothing is behind a name. */
  lemma BlankReceived(proto: Proto, x: Extension, b: Bytes)
    requires TypeFits(proto, x) && Blank(b, Len(proto, x))
    ensures Received(proto, x, ObjectPadding(proto, x, b)) == Received(proto, x, [])
  {
    hide AttrsIn, Trimmed, Carried, NameLen, Covers, Zoned;
    if x.Info? {
      InfoPresent(proto, x);
      NothingPads(proto, AttrsOf(proto, x.iface, x.addr), x.iface, x.addr, b[4..]);
      if x.iface.Some? {
        BlankPadding(x.iface.value.name, |ObjectPadding(proto, x, b)|);
      }
    }
  }

  /** What comes of an object whose type fits. */
  lemma ObjectBack(proto: Proto, x: Extension, b: Bytes)
    requires TypeFits(proto, x) && Len(proto, x) <= |b|
    ensures ObjectAt(ObjectBytes(proto, x, b)) == Ok(Received(proto, x, ObjectPadding(proto, x, b)))
  {
    hide InfoAt, MPLSAt, Received, Wire, RestOver, TypeFits;
    if x.MPLS? {
      StackHead(proto, x);
      MPLSBack(proto, x);
    } else {
      InfoStarts(proto, x, b);
      InfoBack(proto, x, b);
    }
  }

  lemma StackHead(proto: Proto, x: Extension)
    requires x.MPLS?
    ensures Wire(proto, x)[2] == 1
  {
  }

  /** An object that is written over zeros, with a length that fits its field, comes back exactly if it is canonical. */
  lemma ObjectIsSame(proto: Proto, x: Extension, b: Bytes)
    requires Blank(b, Len(proto, x)) && Len(proto, x) < 0x1_0000
    ensures ObjectAt(ObjectBytes(proto, x, b)) == Ok(x) <==> Canonical(proto, x)
  {
    hide Received, ObjectBytes, TypeFits, Len, InfoAt, MPLSAt;
    if TypeFits(proto, x) {
      ObjectBack(proto, x, b);
      BlankReceived(proto, x, b);
      ReceivedIsSame(proto, x);
    } else {
      Unnamed(proto, x, b);
    }
  }

  lemma Unnamed(proto: Proto, x: Extension, b: Bytes)
    requires !TypeFits(proto, x) && Blank(b, Len(proto, x))
    ensures ObjectAt(ObjectBytes(proto, x, b)) != Ok(x) && !Canonical(proto, x)
  {
    hide InfoAt, RestOver, Len;
    InfoStarts(proto, x, b);
    Uncovered(proto, x, b);
  }
}
