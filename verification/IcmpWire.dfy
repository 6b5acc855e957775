/** The bytes of multi-part ICMP messages, said in numbers, and what is made of bytes that no marshaler has written. */
module IcmpWire {
  import opened Options
  import opened Utf8
  import opened IcmpChecksum
  import opened IcmpObjects
  import opened IcmpOverwrite
  import opened IcmpObjectRoundTrip
  import opened IcmpMultipart
  import IcmpMessage

  // ----- numbers -----

  /** Bytes in network order as a number. */
  function Number(b: Bytes): nat {
    if b == [] then 0 else 256 * Number(b[..|b| - 1]) + b[|b| - 1]
  }

  lemma Number2(b: Bytes)
    requires |b| == 2
    ensures Number(b) == 256 * b[0] as int + b[1] as int
  {
    assert Number(b[..1]) == b[0] as int;
  }

  lemma Number4(b: Bytes)
    requires |b| == 4
    ensures Number(b) == 0x100_0000 * b[0] as int + 0x1_0000 * b[1] as int + 256 * b[2] as int + b[3] as int
  {
    assert b[..3][..2] == b[..2];
    Number2(b[..2]);
    assert Number(b[..3]) == 256 * Number(b[..2]) + b[2] as int;
  }

  /** Integers of 16 and 32 bits are written and read in network order. */
  lemma WordsAreNumbers(x: nat, b: Bytes)
    ensures x < 0x1_0000 ==> Number(Bytes16(x)) == x
    ensures x < 0x1_0000_0000 ==> Number(Bytes32(x)) == x
    ensures |b| >= 2 ==> Int16(b) == Number(b[..2])
    ensures |b| >= 4 ==> IcmpObjects.Int32(b) == Number(b[..4])
  {
    hide Bytes16, Bytes32, Number;
    Number2(Bytes16(x));
    Number4(Bytes32(x));
    assert Bytes16(x) + [] == Bytes16(x) && Bytes32(x) + [] == Bytes32(x);
    Int16Back(x, []);
    Int32Back(x, []);
    if |b| >= 2 {
      Number2(b[..2]);
    }
    if |b| >= 4 {
      Number4(b[..4]);
    }
  }

  // ----- the checksum -----

  /** The sum of the 16-bit words in network order, a last odd byte being the high byte of one. */
  function WordSum(b: Bytes): nat {
    if b == [] then 0 else if |b| == 1 then 256 * b[0] else 256 * (b[0] as int) + b[1] + WordSum(b[2..])
  }

  lemma SwapRemainder(a: int, x: int, y: int)
    requires x % 65535 == y % 65535
    ensures (a + x) % 65535 == (a + y) % 65535
  {
    var q := (x - y) / 65535;
    assert x - y == 65535 * q;
    assert a + x == a + y + 65535 * q;
    Shifted(a + y, q);
  }

  lemma Shifted(x: int, q: int)
    ensures (x + 65535 * q) % 65535 == x % 65535
  {
  }

  /** Swapping the bytes of all words is a multiplication by 256 modulo 65535. */
  lemma {:induction false} SumSwaps(b: Bytes)
    ensures WordSum(b) % 65535 == 256 * Sum(b) % 65535 && (WordSum(b) == 0 <==> Sum(b) == 0)
    decreases |b|
  {
    if |b| >= 2 {
      var x, y := b[0] as int, b[1] as int;
      SumSwaps(b[2..]);
      SwapRemainder(256 * x + y, WordSum(b[2..]), 256 * Sum(b[2..]));
      Shifted(256 * x + y + 256 * Sum(b[2..]), y);
      assert 256 * Sum(b) == 256 * x + y + 256 * Sum(b[2..]) + 65535 * y;
    }
  }

  /** The checksum, as its two bytes are stored one behind the other. */
  function Stored(c: nat): nat {
    256 * (c % 256) + c / 256
  }

  lemma Differ(x: int, y: int) returns (k: int)
    requires x % 65535 == y % 65535
    ensures x == y + 65535 * k
  {
    k := (x - y) / 65535;
  }

  lemma Multiple(k: int)
    ensures 65535 * k % 65535 == 0
  {
  }

  lemma Balance(w: int, s: int, f: int, c: nat)
    requires w % 65535 == 256 * s % 65535 && f % 65535 == s % 65535 && c == 65535 - f && 0 <= c < 0x1_0000
    ensures (w + Stored(c)) % 65535 == 0
  {
    hide Stored;
    var p := Differ(w, 256 * s);
    var q := Differ(f, s);
    StoredIs(c);
    Multiple(p + 256 - 256 * q - c / 256);
    assert w + Stored(c) == 65535 * (p + 256 - 256 * q - c / 256);
  }

  /** Together with the words it is for, the stored checksum makes a multiple of 65535. */
  lemma ChecksumLaw(b: Bytes)
    requires |b| <= MAX_COVERED
    ensures (WordSum(b) + Stored(ChecksumOf(b))) % 65535 == 0
    ensures Stored(ChecksumOf(b)) < 0x1_0000 && (Stored(ChecksumOf(b)) == 65535 <==> WordSum(b) == 0)
  {
    hide Sum, WordSum, Fold, Stored;
    SmallSum(b);
    SumSwaps(b);
    SumRemains(Sum(b));
    FoldIsRemainder(Sum(b));
    StoredIs(ChecksumOf(b));
    Balance(WordSum(b), Sum(b), Fold(Sum(b)), ChecksumOf(b));
  }

  lemma SumRemains(s: nat)
    requires s < WRAP
    ensures s % WRAP == s
  {
  }

  lemma StoredIs(c: nat)
    requires c < 0x1_0000
    ensures Stored(c) < 0x1_0000 && Stored(c) == 256 * c - 65535 * (c / 256) && (Stored(c) == 65535 <==> c == 65535)
  {
  }

  /** A checksum of zero says that the words make a multiple of 65535 that is not zero. */
  lemma ZeroMeans(b: Bytes)
    requires |b| <= MAX_COVERED
    ensures ChecksumOf(b) == 0 <==> WordSum(b) > 0 && WordSum(b) % 65535 == 0
  {
    hide Sum, WordSum, ChecksumOf;
    ChecksumLaw(b);
    var c := ChecksumOf(b);
    StoredIs(c);
    StoredZero(c);
  }

  lemma StoredZero(c: nat)
    requires c < 0x1_0000
    ensures Stored(c) == 0 <==> c == 0
  {
  }

  // ----- labels -----

  /** A label is a number of 32 bits: 20 bits of label, 3 of traffic class, one for the bottom of the stack, and 8 of
      time to live. */
  lemma LabelWord(l: Label)
    requires 0 <= l.number < 0x10_0000 && 0 <= l.tc < 8 && 0 <= l.ttl < 256
    ensures Number(LabelWire(l)) == 4096 * l.number + 512 * l.tc + (if l.s then 256 else 0) + l.ttl
  {
    hide Number;
    var b := LabelWire(l);
    Number4(b);
    var q := l.number / 16;
    assert l.number == 16 * q + l.number % 16 && q == 256 * (q / 256) + q % 256 && q / 256 < 256;
    Quotient(l.number);
  }

  lemma WordOf(b: Bytes, w: nat)
    requires |b| >= 4 && w == Number(b[..4])
    ensures LabelAt(b) == Label(w / 4096, w / 512 % 8, w / 256 % 2 == 1, w % 256)
  {
    hide Number;
    Number4(b[..4]);
    var high, third := 256 * (b[0] as int) + b[1] as int, b[2] as int;
    assert w == 65536 * high + 256 * third + b[3] as int;
    ThirdByte(third / 16, third % 16 / 2, third % 2);
    Divided(high, third, b[3] as int);
  }

  lemma Divided(high: nat, third: nat, low: nat)
    requires third < 256 && low < 256
    ensures var w := 65536 * high + 256 * third + low;
      && w / 4096 == 16 * high + third / 16 && w / 512 % 8 == third % 16 / 2 && w / 256 % 2 == third % 2
      && w % 256 == low
  {
    var x, w := 256 * high + third, 65536 * high + 256 * third + low;
    assert w / 256 == x && w % 256 == low;
    Halved(high, third);
    DividedAgain(w, x);
  }

  lemma DividedAgain(w: nat, x: nat)
    requires w / 256 == x
    ensures w / 512 == x / 2 && w / 4096 == x / 16
  {
  }

  lemma Halved(high: nat, third: nat)
    requires third < 256
    ensures var x := 256 * high + third;
      x / 16 == 16 * high + third / 16 && x / 2 % 8 == third % 16 / 2 && x % 2 == third % 2
  {
    var y := third / 2;
    Half(high, third, y, third % 2);
    Eighth(high, y, y / 8, y % 8);
    assert y % 8 == third % 16 / 2;
    Sixteenth(high, third / 16, third % 16);
  }

  lemma Half(high: nat, third: nat, y: nat, r: nat)
    requires third == 2 * y + r && r < 2
    ensures (256 * high + third) / 2 == 128 * high + y && (256 * high + third) % 2 == r
  {
  }

  lemma Eighth(high: nat, y: nat, q: nat, r: nat)
    requires y == 8 * q + r && r < 8
    ensures (128 * high + y) % 8 == r
  {
  }

  lemma Sixteenth(high: nat, q: nat, r: nat)
    requires r < 16
    ensures (256 * high + 16 * q + r) / 16 == 16 * high + q
  {
  }

  /** A stack of labels is read in words of four bytes, and what is left over is not read. */
  lemma {:induction false} LabelsAreWords(b: Bytes, k: nat)
    ensures |LabelsAt(b)| == |b| / 4
    ensures k < |b| / 4 ==>
      var w := Number(b[4 * k..4 * k + 4]);
      LabelsAt(b)[k] == Label(w / 4096, w / 512 % 8, w / 256 % 2 == 1, w % 256)
    decreases |b|
  {
    hide Number, LabelAt;
    if |b| >= 4 {
      LabelsAreWords(b[4..], if k > 0 then k - 1 else 0);
      WordOf(b, Number(b[..4]));
      if 0 < k < |b| / 4 {
        assert b[4..][4 * (k - 1)..4 * (k - 1) + 4] == b[4 * k..4 * k + 4];
      }
    }
  }

  // ----- bytes that no marshaler has written -----

  /** An extension header stands at m: version 2, and a checksum that is zero, or right for all that follows. */
  predicate HeaderAt(b: Bytes, m: nat) {
    && m + 4 <= |b| && 0x20 <= b[m] <= 0x2F
    && ((b[m + 2] == 0 && b[m + 3] == 0) || WordSum(b[m..]) % 65535 == 0)
  }

  lemma HeaderIs(b: Bytes, m: nat)
    requires m + 4 <= |b| <= m + MAX_COVERED
    ensures ValidHeader(b[m..]) <==> HeaderAt(b, m)
  {
    hide WordSum, ChecksumOf;
    ZeroMeans(b[m..]);
    if b[m] > 0 {
      SomeSum(b[m..]);
    }
  }

  lemma SomeSum(b: Bytes)
    requires b != [] && b[0] > 0
    ensures WordSum(b) > 0
  {
  }

  /** Where the data ends and the extensions begin: where the length attribute says, if it says at least 128 bytes,
      there is room for a header and an object behind that and a header stands there; and behind 128 bytes otherwise. */
  predicate SplitsAt(b: Bytes, attribute: nat, m: nat) {
    var told := 128 <= attribute <= |b| - 8 && HeaderAt(b, attribute);
    && 136 <= |b| && HeaderAt(b, m) && m == if told then attribute else 128
  }

  lemma ExtensionsAre(b: Bytes, attribute: nat, m: nat)
    requires |b| <= MAX_COVERED
    ensures SplitsAt(b, attribute, m) ==>
      match ObjectsAt(b[m + 4..])
      case Ok(exts) => ExtensionsAt(b, attribute) == Ok(Extensions(exts, m))
      case Err(e) => ExtensionsAt(b, attribute) == Err(e)
    ensures (forall k: nat :: !SplitsAt(b, attribute, k)) ==> ExtensionsAt(b, attribute) == Err(NoExtension)
  {
    hide ValidHeader, ObjectsAt, HeaderAt;
    if 136 <= |b| {
      HeaderIs(b, 128);
      if 128 <= attribute <= |b| - 8 {
        HeaderIs(b, attribute);
        assert HeaderAt(b, attribute) ==> SplitsAt(b, attribute, attribute);
      }
      assert HeaderAt(b, 128) ==> SplitsAt(b, attribute, 128) || SplitsAt(b, attribute, attribute);
    }
  }

  /** The length attribute: the second byte in words of four bytes, or the first one in words of eight. */
  function Attribute(proto: Proto, b: Bytes): nat
    requires |b| >= 4
  {
    match proto
    case ICMPv4 => 4 * (b[1] as int)
    case ICMPv6 => 8 * (b[0] as int)
  }

  /** What is made of a body: if there are extensions and all of them can be read, what stands in front of them is the
      data; otherwise all of it is. */
  lemma BodyIs(proto: Proto, b: Bytes, m: nat)
    requires 4 <= |b| <= MAX_COVERED
    ensures SplitsAt(b[4..], Attribute(proto, b), m) && ObjectsAt(b[m + 8..]).Ok? ==>
      BodyAt(proto, b) == (b[4..m + 4], ObjectsAt(b[m + 8..]).value)
    ensures SplitsAt(b[4..], Attribute(proto, b), m) && ObjectsAt(b[m + 8..]).Err? ==> BodyAt(proto, b) == (b[4..], [])
    ensures (forall k: nat :: !SplitsAt(b[4..], Attribute(proto, b), k)) ==> BodyAt(proto, b) == (b[4..], [])
  {
    hide ObjectsAt, ExtensionsAt, HeaderAt;
    var rest := b[4..];
    ExtensionsAre(rest, Attribute(proto, b), m);
    if m + 8 <= |b| {
      assert rest[m + 4..] == b[m + 8..];
    }
  }

  /** An object that is read: its length stands in front of it, and its class decides what becomes of it. */
  lemma ObjectRead(o: Bytes, rest: Bytes)
    requires 4 <= |o| == Number(o[..2])
    ensures o[2] !in {1, 2} ==> ObjectsAt(o + rest) == ObjectsAt(rest)
    ensures o[2] == 1 && ObjectsAt(rest).Ok? ==>
      ObjectsAt(o + rest) == Ok([MPLS(1, o[3], LabelsAt(o[4..]))] + ObjectsAt(rest).value)
    ensures o[2] == 2 && InfoAt(o).Ok? && ObjectsAt(rest).Ok? ==>
      ObjectsAt(o + rest) == Ok([InfoAt(o).value] + ObjectsAt(rest).value)
    ensures (o[2] == 2 && InfoAt(o).Err?) || ObjectsAt(rest).Err? ==> ObjectsAt(o + rest).Err?
  {
    hide InfoAt, LabelsAt, Number;
    var b := o + rest;
    Number2(o[..2]);
    assert Int16(b) == |o|;
    assert b[..|o|] == o && b[|o|..] == rest;
  }

  /** A length that cannot be right ends the reading. */
  lemma LengthEnds(b: Bytes)
    requires |b| < 4 || Number(b[..2]) < 4 || Number(b[..2]) > |b|
    ensures ObjectsAt(b) == Ok([])
  {
    if |b| >= 4 {
      Number2(b[..2]);
    }
  }

  function Bit(b: bool): nat {
    if b then 1 else 0
  }

  lemma LastBit(x: nat, b: bool)
    ensures (2 * x + Bit(b)) / 2 == x && (2 * x + Bit(b)) % 2 == Bit(b)
  {
  }

  lemma Quarters(x: nat)
    ensures x / 4 == x / 2 / 2 && x / 8 == x / 4 / 2
  {
  }

  /** The low four bits of the type say what an object carries: index, address, name and MTU, from the highest one. */
  lemma TypeBits(a: Attrs, high: nat)
    ensures AttrsIn(16 * high + 8 * Bit(a.ifIndex) + 4 * Bit(a.ipAddr) + 2 * Bit(a.name) + Bit(a.mtu)) == a
  {
    hide Bit;
    var i := 2 * high + Bit(a.ifIndex);
    var j := 2 * i + Bit(a.ipAddr);
    var k := 2 * j + Bit(a.name);
    LastBit(high, a.ifIndex);
    LastBit(i, a.ipAddr);
    LastBit(j, a.name);
    LastBit(k, a.mtu);
    Quarters(2 * k + Bit(a.mtu));
    BitIs(a);
  }

  lemma BitIs(a: Attrs)
    ensures (Bit(a.ifIndex) == 1 <==> a.ifIndex) && (Bit(a.ipAddr) == 1 <==> a.ipAddr)
    ensures (Bit(a.name) == 1 <==> a.name) && (Bit(a.mtu) == 1 <==> a.mtu)
  {
  }

  /** t is s without the NULs at its ends. */
  ghost predicate Stripped(s: Bytes, t: Bytes) {
    NoNulAtEnds(t) && exists i: nat, j: nat :: StrippedBy(s, t, i, j)
  }

  ghost predicate StrippedBy(s: Bytes, t: Bytes, i: nat, j: nat) {
    s == Zeros(i) + t + Zeros(j)
  }

  lemma {:induction false} LeftZeros(s: Bytes) returns (i: nat)
    ensures s == Zeros(i) + TrimLeft(s) && (TrimLeft(s) != [] ==> TrimLeft(s)[0] != 0)
  {
    if s != [] && s[0] == 0 {
      var k := LeftZeros(s[1..]);
      i := k + 1;
      assert s == [0] + s[1..] && Zeros(i) == [0] + Zeros(k);
    } else {
      i := 0;
    }
  }

  lemma {:induction false} RightZeros(s: Bytes) returns (j: nat)
    ensures s == TrimRight(s) + Zeros(j) && (TrimRight(s) != [] ==> TrimRight(s)[|TrimRight(s)| - 1] != 0)
    decreases |s|
  {
    if s != [] && s[|s| - 1] == 0 {
      var front := s[..|s| - 1];
      var k := RightZeros(front);
      j := k + 1;
      ZerosConcat(k, 1);
      assert s == front + Zeros(1);
    } else {
      j := 0;
    }
  }

  lemma TrimStrips(s: Bytes)
    ensures Stripped(s, TrimLeft(TrimRight(s)))
  {
    var r := TrimRight(s);
    var j := RightZeros(s);
    var i := LeftZeros(r);
    var t := TrimLeft(r);
    assert t != [] ==> t[|t| - 1] == r[|r| - 1];
    assert StrippedBy(s, t, i, j);
  }

  /** A name on any bytes: its length is a multiple of four up to 64, and it is what stands there without the NULs at
      its ends. */
  lemma NameRead(b: Bytes)
    ensures |b| < 4 || |b| < b[0] ==> NameAt(b) == Err(MessageTooShort)
    ensures |b| >= 4 && |b| >= b[0] ==>
      if b[0] % 4 == 0 && 4 <= b[0] <= 64 then
        NameAt(b).Ok? && NameAt(b).value.1 == b[0] && Stripped(b[1..b[0]], NameAt(b).value.0)
      else NameAt(b) == Err(InvalidExtension)
  {
    hide TrimLeft, TrimRight, Stripped, Zeros;
    if |b| >= 4 && |b| >= b[0] && b[0] % 4 == 0 && 4 <= b[0] <= 64 {
      TrimPadding(b[1..b[0]], 64 - b[0]);
      TrimStrips(b[1..b[0]]);
    }
  }

  /** An address on any bytes: four of family 1, sixteen of family 2, and none of another. */
  lemma AddrRead(b: Bytes)
    ensures |b| < 4 ==> AddrAt(b) == Err(MessageTooShort)
    ensures |b| >= 4 ==>
      match Number(b[..2])
      case 1 => AddrAt(b) == if |b| < 8 then Err(MessageTooShort) else Ok((b[4..8], 8))
      case 2 => AddrAt(b) == if |b| < 20 then Err(MessageTooShort) else Ok((b[4..20], 20))
      case _ => AddrAt(b) == Ok(([], 4))
  {
    hide Number;
    if |b| >= 4 {
      Number2(b[..2]);
      assert b[4..4] == [];
    }
  }

  // ----- known bytes -----

  /** A canonical object is read from its bytes. */
  lemma WireBack(proto: Proto, x: Extension)
    requires Canonical(proto, x)
    ensures ObjectAt(Wire(proto, x)) == Ok(x)
  {
    hide ObjectAt, Wire, ObjectBytes;
    var b := Zeros(Len(proto, x));
    CanonicalLength(proto, x);
    BlankObject(proto, x, b);
    ObjectIsSame(proto, x, b);
  }

  lemma CanonicalLength(proto: Proto, x: Extension)
    requires Canonical(proto, x)
    ensures Len(proto, x) < 0x1_0000
  {
  }

  const EN101: Bytes := [0x65, 0x6E, 0x31, 0x30, 0x31]

  lemma StackBytes()
    ensures Wire(ICMPv4, MPLS(1, 1, [])) == [0x00, 0x04, 0x01, 0x01]
    ensures Wire(ICMPv6, MPLS(1, 1, [Label(16014, 4, true, 255)])) == [0x00, 0x08, 0x01, 0x01, 0x03, 0xE8, 0xE9, 0xFF]
    ensures Wire(ICMPv4, MPLS(1, 1, [Label(16013, 7, false, 254), Label(16014, 0, true, 255)]))
         == [0x00, 0x0C, 0x01, 0x01, 0x03, 0xE8, 0xDE, 0xFE, 0x03, 0xE8, 0xE1, 0xFF]
  {
    var a, b := Label(16013, 7, false, 254), Label(16014, 0, true, 255);
    assert [a, b][1..] == [b];
    assert LabelsWire([b]) == LabelWire(b);
    assert LabelsWire([a, b]) == LabelWire(a) + LabelWire(b);
    assert LabelsWire([Label(16014, 4, true, 255)]) == LabelWire(Label(16014, 4, true, 255));
  }

  lemma InfoBytes()
    ensures Wire(ICMPv4, Info(2, 0, None, None)) == [0x00, 0x04, 0x02, 0x00]
    ensures Wire(ICMPv4, Info(2, 0x0A, Some(Interface(16, 0, EN101)), None))
         == [0x00, 0x10, 0x02, 0x0A, 0x00, 0x00, 0x00, 0x10, 0x08] + EN101 + [0x00, 0x00]
  {
    assert Zeros(2) == [0, 0];
  }

  /** fe80::1 */
  const LINK_LOCAL: Bytes := [0xFE, 0x80] + Zeros(13) + [0x01]

  const ALL: Extension := Info(2, 0x0F, Some(Interface(15, 8192, EN101)), Some(Addr(LINK_LOCAL, EN101)))

  lemma LinkLocalIs()
    ensures |LINK_LOCAL| == 16 && LINK_LOCAL[..12] != V4_IN_V6 && Carried(ICMPv6, LINK_LOCAL) == LINK_LOCAL
  {
    assert LINK_LOCAL[..12][0] == 0xFE;
  }

  lemma AllIsCanonical()
    ensures Canonical(ICMPv6, ALL)
    ensures AttrsOf(ICMPv6, ALL.iface, ALL.addr) == Attrs(true, true, true, true)
  {
    hide Carried, LINK_LOCAL;
    LinkLocalIs();
  }

  lemma AllParts()
    ensures Wire(ICMPv6, ALL)
         == Bytes16(Len(ICMPv6, ALL)) + [2, Low(0x0F)]
            + (Bytes32(15) + (AddrWire(ICMPv6, LINK_LOCAL) + (NameWire(EN101) + Bytes32(8192))))
    ensures Len(ICMPv6, ALL) == 40
  {
    hide LINK_LOCAL, Carried, AddrWire, NameWire, Bytes32, Bytes16;
    LinkLocalIs();
    AllIsCanonical();
  }

  lemma AddressBytes()
    ensures Wire(ICMPv6, ALL)
         == [0x00, 0x28, 0x02, 0x0F] + ([0x00, 0x00, 0x00, 0x0F] + (([0x00, 0x02, 0x00, 0x00] + LINK_LOCAL)
            + (([0x08] + EN101 + [0x00, 0x00]) + [0x00, 0x00, 0x20, 0x00])))
  {
    hide Wire, LINK_LOCAL, Carried;
    LinkLocalIs();
    AllParts();
    assert Zeros(2) == [0, 0];
    assert Bytes16(40) == [0x00, 0x28] && Bytes32(15) == [0, 0, 0, 0x0F] && Bytes32(8192) == [0, 0, 0x20, 0];
    assert AddrWire(ICMPv6, LINK_LOCAL) == [0x00, 0x02, 0x00, 0x00] + LINK_LOCAL;
    assert NameWire(EN101) == [0x08] + EN101 + [0x00, 0x00];
  }

  // ----- messages -----

  /** Data in front of extensions takes 128 bytes, or the least multiple of four or eight bytes that is more. */
  lemma PaddedIs(proto: Proto, n: nat)
    ensures n < 128 ==> PaddedLen(proto, n) == 128
    ensures n >= 128 && proto.ICMPv4? ==> PaddedLen(proto, n) % 4 == 0 && n < PaddedLen(proto, n) <= n + 4
    ensures n >= 128 && proto.ICMPv6? ==> PaddedLen(proto, n) % 8 == 0 && n < PaddedLen(proto, n) <= n + 8
  {
  }

  lemma Three(h: Bytes, p: Bytes, e: Bytes)
    requires |h| == 4 && |e| >= 8
    ensures var b := h + p + e;
      && b[0] == h[0] && b[1] == h[1] && b[2] == h[2] && b[3] == h[3] && b[4..4 + |p|] == p
      && b[4 + |p|] == e[0] && b[5 + |p|] == e[1] && b[8 + |p|..] == e[4..]
  {
  }

  /** The length of the data, in words of four or eight bytes. */
  lemma HeadBytes(proto: Proto, l: nat)
    ensures var h := Head(proto, l);
      && h[2] == 0 && h[3] == 0
      && (proto.ICMPv4? && l % 4 == 0 && l < 1024 ==> h[0] == 0 && 4 * (h[1] as int) == l)
      && (proto.ICMPv6? && l % 8 == 0 && l < 2048 ==> 8 * (h[0] as int) == l && h[1] == 0)
  {
  }

  /** The bytes of a body: the length of the data, the data and zeros, the extension header and the objects. */
  lemma BodyBytes(proto: Proto, data: Bytes, exts: seq<Extension>)
    requires exts != []
    ensures var b, l := Body(proto, data, exts), PaddedLen(proto, |data|);
      && |b| >= l + 12 && b[2] == 0 && b[3] == 0
      && (proto.ICMPv4? && l < 1024 ==> b[0] == 0 && 4 * (b[1] as int) == l)
      && (proto.ICMPv6? && l < 2048 ==> 8 * (b[0] as int) == l && b[1] == 0)
      && b[4..4 + l] == data + Zeros(l - |data|)
      && b[4 + l] == 0x20 && b[5 + l] == 0 && b[8 + l..] == ObjectsWire(proto, exts)
  {
    hide ObjectsWire, Structure, Head, Zeros;
    var l := PaddedLen(proto, |data|);
    HeadBytes(proto, l);
    StructureStarts(proto, exts);
    Three(Head(proto, l), data + Zeros(l - |data|), Structure(proto, exts));
  }

  lemma StructureStarts(proto: Proto, exts: seq<Extension>)
    requires exts != []
    ensures var e := Structure(proto, exts); |e| >= 8 && e[0] == 0x20 && e[1] == 0 && e[4..] == ObjectsWire(proto, exts)
  {
    hide ObjectsWire, ChecksumOf, XorByte;
    assert (HEADER + ObjectsWire(proto, exts))[4..] == ObjectsWire(proto, exts);
  }

  /** The length of the message stands in the pseudo header behind two addresses of 16 bytes, in network order. */
  lemma LengthField(b: Bytes, l: nat)
    requires |b| >= 36 && l < 0x1_0000_0000
    ensures var r := IcmpMessage.WithLength(b, l);
      |r| == |b| && r[..32] == b[..32] && Number(r[32..36]) == l && r[36..] == b[36..]
  {
    hide Number, Bytes32;
    WordsAreNumbers(l, []);
    assert IcmpMessage.WithLength(b, l)[32..36] == Bytes32(l);
  }
}
